/**
 * ocr_search.py: find the image files of a folder whose recognised text
 * contains a word, ignoring case.
 *
 * The OCR engine (pytesseract over PIL) enters as `ocr`, a fallible oracle
 * from a listed file name to its text; the folder listing and the
 * `os.path.isfile` test enter as a sequence of entries.
 */
module OcrSearch {
  import opened Wrappers
  import opened Strings

  /** Text recognised in a file, or None when opening or recognising it raised. */
  type Ocr = string -> Option<string>

  /** Python's `word.lower() in text.lower()`, ASCII lowercasing. */
  ghost predicate MatchesIgnoringCase(word: string, text: string)
  {
    IsSubstring(Lower(word), Lower(text))
  }

  /**
   * `contains_word`: whether the word occurs in the recognised text, ignoring
   * case, together with that text; `(false, "")` when recognition fails.
   */
  function ContainsWord(path: string, word: string, ocr: Ocr): (r: (bool, string))
    ensures ocr(path).None? ==> r == (false, "")
    ensures ocr(path).Some? ==> r.1 == ocr(path).value
    ensures ocr(path).Some? ==> (r.0 <==> MatchesIgnoringCase(word, ocr(path).value))
  {
    match ocr(path)
    case None => (false, "")
    case Some(text) => (Contains(Lower(text), Lower(word)), text)
  }

  /** Changing the case of the word does not change the result. */
  lemma ContainsWordIgnoresWordCase(path: string, word1: string, word2: string, ocr: Ocr)
    requires Lower(word1) == Lower(word2)
    ensures ContainsWord(path, word1, ocr) == ContainsWord(path, word2, ocr)
  {
  }

  /** In particular, searching for the lowered word is the same search. */
  lemma ContainsWordOfLowered(path: string, word: string, ocr: Ocr)
    ensures ContainsWord(path, Lower(word), ocr) == ContainsWord(path, word, ocr)
  {
    LowerIsLower(word);
  }

  /** An empty word matches every file whose text can be recognised. */
  lemma EmptyWordMatchesReadable(path: string, ocr: Ocr)
    requires ocr(path).Some?
    ensures ContainsWord(path, "", ocr).0
  {
    assert Lower("") == "";
    EmptyIsSubstring(Lower(ocr(path).value));
  }

  /** Recognised "Hello World" contains "world" but not "xyz". */
  lemma HelloWorldExample(path: string, ocr: Ocr)
    requires ocr(path) == Some("Hello World")
    ensures ContainsWord(path, "world", ocr) == (true, "Hello World")
    ensures ContainsWord(path, "xyz", ocr) == (false, "Hello World")
  {
    var lowered := Lower("Hello World");
    assert lowered == "hello world";
    assert Lower("world") == "world";
    assert OccursAt("world", lowered, 6) by {
      assert lowered[6..11] == "world";
    }
    assert Lower("xyz") == "xyz";
    assert !IsSubstring("xyz", lowered) by {
      assert 'x' !in lowered;
      forall i | 0 <= i <= |lowered| - 3 ensures !OccursAt("xyz", lowered, i) {
        assert lowered[i] != 'x';
      }
    }
  }

  /** One name returned by `os.listdir`, and whether `os.path.isfile` holds of it. */
  datatype Entry = Entry(name: string, isFile: bool)

  /** `fname.lower().endswith((".png", ".jpg", ".jpeg"))` */
  predicate HasImageExtension(name: string)
  {
    var l := Lower(name);
    EndsWith(l, ".png") || EndsWith(l, ".jpg") || EndsWith(l, ".jpeg")
  }

  /** Entries the scan runs the word search on. */
  predicate IsCandidate(e: Entry)
  {
    e.isFile && HasImageExtension(e.name)
  }

  /** What one entry adds to the matches: its name and text when it is a hit. */
  function Step(e: Entry, word: string, ocr: Ocr): seq<(string, string)>
  {
    if IsCandidate(e) then
      var (found, text) := ContainsWord(e.name, word, ocr);
      if found then [(e.name, text)] else []
    else []
  }

  /** The matches of a listing, in listing order. */
  function Matches(entries: seq<Entry>, word: string, ocr: Ocr): seq<(string, string)>
  {
    if entries == [] then []
    else Matches(entries[..|entries| - 1], word, ocr) + Step(entries[|entries| - 1], word, ocr)
  }

  /** The positions in the listing of the matches, in the same order. */
  function MatchIndices(entries: seq<Entry>, word: string, ocr: Ocr): seq<nat>
  {
    if entries == [] then []
    else
      var n := |entries| - 1;
      MatchIndices(entries[..n], word, ocr) + (if Step(entries[n], word, ocr) != [] then [n] else [])
  }

  /**
   * Each match is a candidate entry with an image extension whose recognised
   * text contains the word; the matched entries keep their listing order.
   */
  lemma {:induction false} MatchesAreOrderedHits(entries: seq<Entry>, word: string, ocr: Ocr)
    ensures var m, idx := Matches(entries, word, ocr), MatchIndices(entries, word, ocr);
      |idx| == |m| &&
      (forall j, k :: 0 <= j < k < |idx| ==> idx[j] < idx[k]) &&
      (forall k :: 0 <= k < |idx| ==>
         idx[k] < |entries| && entries[idx[k]].name == m[k].0 && IsCandidate(entries[idx[k]]) &&
         ocr(m[k].0) == Some(m[k].1) && MatchesIgnoringCase(word, m[k].1))
  {
    if entries != [] {
      var n := |entries| - 1;
      MatchesAreOrderedHits(entries[..n], word, ocr);
      var m0, idx0 := Matches(entries[..n], word, ocr), MatchIndices(entries[..n], word, ocr);
      assert forall k :: 0 <= k < |idx0| ==> idx0[k] < n;
      assert forall k :: 0 <= k < |idx0| ==> entries[idx0[k]] == entries[..n][idx0[k]];
    }
  }

  /** So every matched file has an image extension and text containing the word. */
  lemma MatchesSound(entries: seq<Entry>, word: string, ocr: Ocr)
    ensures forall m :: m in Matches(entries, word, ocr) ==>
      HasImageExtension(m.0) && ocr(m.0) == Some(m.1) && MatchesIgnoringCase(word, m.1)
  {
    MatchesAreOrderedHits(entries, word, ocr);
    var ms, idx := Matches(entries, word, ocr), MatchIndices(entries, word, ocr);
    forall m | m in ms
      ensures HasImageExtension(m.0) && ocr(m.0) == Some(m.1) && MatchesIgnoringCase(word, m.1)
    {
      var k :| 0 <= k < |ms| && ms[k] == m;
      assert IsCandidate(entries[idx[k]]);
    }
  }

  /** There are never more matches than entries. */
  lemma MatchesLength(entries: seq<Entry>, word: string, ocr: Ocr)
    ensures |Matches(entries, word, ocr)| <= |entries|
  {
    MatchesAreOrderedHits(entries, word, ocr);
    var idx := MatchIndices(entries, word, ocr);
    StrictlyIncreasingBelow(idx, |entries|);
  }

  /** A strictly increasing sequence of naturals below `n` has at most `n` elements. */
  lemma {:induction false} StrictlyIncreasingBelow(idx: seq<nat>, n: nat)
    requires forall j, k :: 0 <= j < k < |idx| ==> idx[j] < idx[k]
    requires forall k :: 0 <= k < |idx| ==> idx[k] < n
    ensures |idx| <= n
  {
    if idx != [] {
      var last := idx[|idx| - 1];
      StrictlyIncreasingBelow(idx[..|idx| - 1], last);
    }
  }

  /** Every candidate file whose recognised text contains the word is matched. */
  lemma {:induction false} MatchesComplete(entries: seq<Entry>, word: string, ocr: Ocr, i: nat)
    requires i < |entries| && IsCandidate(entries[i])
    requires ocr(entries[i].name).Some? && MatchesIgnoringCase(word, ocr(entries[i].name).value)
    ensures (entries[i].name, ocr(entries[i].name).value) in Matches(entries, word, ocr)
  {
    var n := |entries| - 1;
    if i < n {
      assert entries[..n][i] == entries[i];
      MatchesComplete(entries[..n], word, ocr, i);
    }
  }

  /**
   * `scan_folder_for_word`: walk the listing, run the word search on every
   * regular file with an image extension, and append each hit.
   */
  method ScanFolderForWord(entries: seq<Entry>, word: string, ocr: Ocr)
    returns (matches: seq<(string, string)>)
    ensures matches == Matches(entries, word, ocr)
  {
    matches := [];
    for i := 0 to |entries|
      invariant matches == Matches(entries[..i], word, ocr)
    {
      var fname := entries[i].name;
      if entries[i].isFile && HasImageExtension(fname) {
        var (found, text) := ContainsWord(fname, word, ocr);
        if found {
          matches := matches + [(fname, text)];
        }
      }
      assert entries[..i + 1][..i] == entries[..i];
    }
    assert entries[..|entries|] == entries;
  }
}
