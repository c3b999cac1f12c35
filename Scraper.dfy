/**
 * scraper.py: guess a screenshot id, ask the hosting service for its page,
 * accept the screenshot address found there unless it is the service's
 * placeholder, and count the hits over a run of probes.
 *
 * The randomness of `random.choices` enters as the indices it draws; the
 * HTTP request and the HTML parse enter as a `server` that maps a page URL
 * to its status code and the `src` of the screenshot `img` tag (if any).
 */
module Scraper {
  import opened Wrappers
  import opened Strings

  /** The `n` characters with consecutive codes from `first` on. */
  function CharRange(first: char, n: nat): (r: string)
    requires first as int + n <= 0xD800
    ensures |r| == n
    ensures forall i :: 0 <= i < n ==> r[i] as int == first as int + i
  {
    seq(n, i requires 0 <= i < n => (first as int + i) as char)
  }

  /** `string.ascii_lowercase` */
  const AsciiLowercase: string := CharRange('a', 26)
  /** `string.digits` */
  const Digits: string := CharRange('0', 10)
  /** The population `generate_id` samples from. */
  const Alphabet: string := AsciiLowercase + Digits
  /** `k=6` in `generate_id`. */
  const IdLength: nat := 6

  /** The page of a screenshot is this prefix followed by its id. */
  const PagePrefix: string := "https://prnt.sc/"
  /** The address the service serves in place of a screenshot that does not exist. */
  const PlaceholderPrefix: string := "//st.prntscr.com"
  /** The only status code treated as "the page exists". */
  const StatusOk: int := 200

  /** The population is the 36 characters Python spells out. */
  lemma AlphabetIsPython()
    ensures Alphabet == "abcdefghijklmnopqrstuvwxyz0123456789"
  {
  }

  /** An index `random.choices` may draw from the population. */
  type AlphabetIndex = i: nat | i < 36

  /** The draws of one `random.choices(population, k=6)` call. */
  type Draw = d: seq<AlphabetIndex> | |d| == IdLength witness [0, 0, 0, 0, 0, 0]

  predicate IsIdChar(c: char)
  {
    'a' <= c <= 'z' || '0' <= c <= '9'
  }

  /** The population position by position: the letters, then the digits. */
  lemma AlphabetAt(k: AlphabetIndex)
    ensures Alphabet[k] as int == if k < 26 then 'a' as int + k else '0' as int + k - 26
    ensures IsIdChar(Alphabet[k])
  {
    if k < 26 {
      assert Alphabet[k] == AsciiLowercase[k];
    } else {
      assert Alphabet[k] == Digits[k - 26];
    }
  }

  /** `generate_id`: the population character at each drawn index. */
  function GenerateId(d: Draw): (id: string)
    ensures |id| == IdLength
    ensures forall i :: 0 <= i < |id| ==> IsIdChar(id[i])
  {
    var id := seq(IdLength, i requires 0 <= i < IdLength => Alphabet[d[i]]);
    assert forall i :: 0 <= i < |id| ==> IsIdChar(id[i]) by {
      forall i | 0 <= i < |id| ensures IsIdChar(id[i]) {
        AlphabetAt(d[i]);
      }
    }
    id
  }

  /** Where a valid id character sits in the population. */
  function IndexOf(c: char): (k: AlphabetIndex)
    requires IsIdChar(c)
    ensures Alphabet[k] == c
  {
    var k := if 'a' <= c <= 'z' then c as int - 'a' as int else 26 + c as int - '0' as int;
    AlphabetAt(k);
    k
  }

  /** Every six-character id over the alphabet can be generated... */
  lemma GenerateIdOnto(id: string)
    requires |id| == IdLength
    requires forall i :: 0 <= i < |id| ==> IsIdChar(id[i])
    ensures exists d: Draw :: GenerateId(d) == id
  {
    var d: Draw := seq(IdLength, i requires 0 <= i < IdLength => IndexOf(id[i]));
    assert GenerateId(d) == id;
  }

  /** ...and by exactly one sequence of draws, since the population has no repeats. */
  lemma GenerateIdInjective(d1: Draw, d2: Draw)
    requires GenerateId(d1) == GenerateId(d2)
    ensures d1 == d2
  {
    forall i | 0 <= i < IdLength ensures d1[i] == d2[i] {
      assert Alphabet[d1[i]] == GenerateId(d1)[i];
      assert IndexOf(Alphabet[d1[i]]) == d1[i];
    }
  }

  /** The page probed for an id; the id can be read back after the fixed prefix. */
  function PageUrl(id: string): (url: string)
    ensures StartsWith(url, PagePrefix)
    ensures url[|PagePrefix|..] == id
  {
    PagePrefix + id
  }

  /** Distinct ids are probed at distinct pages. */
  lemma PageUrlInjective(id1: string, id2: string)
    requires PageUrl(id1) == PageUrl(id2)
    ensures id1 == id2
  {
    assert id1 == PageUrl(id1)[|PagePrefix|..];
  }

  /**
   * What one GET of a page yields: the status code and, for the
   * `img` tag of class `no-click screenshot-image`, its `src` attribute
   * (None when there is no such tag or the tag has no `src`).
   */
  datatype Response = Response(status: int, imgSrc: Option<string>)

  /** The answers the service gives, by page URL. */
  type Server = string -> Response

  /**
   * `fetch_prntsc_image`: the screenshot address of the page for `id`, or
   * None when the page is not served with 200, carries no screenshot
   * `src`, an empty one, or the placeholder.
   */
  function FetchImage(id: string, server: Server): (r: Option<string>)
    // a non-200 page is never a find
    ensures server(PageUrl(id)).status != StatusOk ==> r == None
    // a find is the page's own, non-empty `src`, never the placeholder
    ensures r.Some? ==> server(PageUrl(id)).imgSrc == r
    ensures r.Some? ==> r.value != "" && !StartsWith(r.value, PlaceholderPrefix)
    // and every such `src` of a 200 page is a find
    ensures server(PageUrl(id)).status == StatusOk && server(PageUrl(id)).imgSrc.Some?
            && server(PageUrl(id)).imgSrc.value != ""
            && !StartsWith(server(PageUrl(id)).imgSrc.value, PlaceholderPrefix)
            ==> r.Some?
  {
    var resp := server(PageUrl(id));
    if resp.status != StatusOk then None
    else if resp.imgSrc.Some? && resp.imgSrc.value != ""
            && !StartsWith(resp.imgSrc.value, PlaceholderPrefix)
    then resp.imgSrc
    else None
  }

  /** Only the page of `id` is consulted: servers that agree there give the same answer. */
  lemma FetchImageReadsOnlyItsPage(id: string, s1: Server, s2: Server)
    requires s1(PageUrl(id)) == s2(PageUrl(id))
    ensures FetchImage(id, s1) == FetchImage(id, s2)
  {
  }

  /** A page that serves the placeholder is "not found". */
  lemma PlaceholderIsNotFound(id: string, server: Server, rest: string)
    requires server(PageUrl(id)).imgSrc == Some(PlaceholderPrefix + rest)
    ensures FetchImage(id, server) == None
  {
    StartsWithIffPrefix(PlaceholderPrefix + rest, PlaceholderPrefix);
  }

  /** One line of `main`'s report: the id probed and what was found there. */
  datatype ProbeRecord = ProbeRecord(id: string, url: Option<string>)

  /** The number of records that report a find. */
  function Hits(log: seq<ProbeRecord>): (n: nat)
    ensures n <= |log|
    ensures n == |log| <==> forall k :: 0 <= k < |log| ==> log[k].url.Some?
    ensures n == 0 <==> forall k :: 0 <= k < |log| ==> log[k].url.None?
  {
    if log == [] then 0
    else Hits(log[..|log| - 1]) + (if log[|log| - 1].url.Some? then 1 else 0)
  }

  /** How many times `for _ in range(n)` runs its body. */
  function Iterations(n: int): (k: nat)
    ensures n <= 0 ==> k == 0
    ensures n >= 0 ==> k == n
  {
    if n < 0 then 0 else n
  }

  /**
   * `main(num_links)`: probe `num_links` freshly generated ids, the k-th
   * from the k-th draw of `rng`, record each outcome and count the finds.
   */
  method Probe(numLinks: int, rng: nat -> Draw, server: Server)
    returns (found: nat, log: seq<ProbeRecord>)
    ensures |log| == Iterations(numLinks)
    ensures forall k :: 0 <= k < |log| ==>
              log[k].id == GenerateId(rng(k)) && log[k].url == FetchImage(log[k].id, server)
    ensures found == Hits(log)
    ensures found <= Iterations(numLinks)
  {
    found := 0;
    log := [];
    for k := 0 to Iterations(numLinks)
      invariant |log| == k
      invariant forall j :: 0 <= j < k ==>
                  log[j].id == GenerateId(rng(j)) && log[j].url == FetchImage(log[j].id, server)
      invariant found == Hits(log)
    {
      var id := GenerateId(rng(k));
      var imgUrl := FetchImage(id, server);
      // `if img_url:` -- a find is never the empty string
      if imgUrl.Some? && imgUrl.value != "" {
        found := found + 1;
      }
      assert (log + [ProbeRecord(id, imgUrl)])[..k] == log;
      log := log + [ProbeRecord(id, imgUrl)];
    }
  }
}
