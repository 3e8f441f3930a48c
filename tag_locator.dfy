/**
  The tag locator: `findTag` walks a directory tree and reports, for every regular
  file whose first `<!--tag-->` marker is not at offset 0, where the generated region
  starts (just after that marker) and where it stops (at the next marker, or `-1`).
 */
module TagLocator {
  import opened Wrappers
  import opened ByteSearch
  import opened FileTree

  /** The `Match` record that `findTag` emits: the region `[start, stop)` of file `fname`. */
  datatype Match = Match(fname: Path, start: nat, stop: int)

  /** `<!--` and `-->` as bytes. */
  const Open: Bytes := [0x3C, 0x21, 0x2D, 0x2D]
  const Close: Bytes := [0x2D, 0x2D, 0x3E]

  /** The delimiter marker `<!--${tag}-->`, used both to open and to close a region. */
  function Marker(tag: Bytes): (r: Bytes)
    ensures |r| == |tag| + 7
    ensures r[..4] == Open && r[4..|r| - 3] == tag && r[|r| - 3..] == Close
  {
    Open + tag + Close
  }

  /** Marker occurrence at `i` is the first one in `s`. */
  ghost predicate FirstAt(s: Bytes, pat: Bytes, i: nat)
  {
    OccursAt(s, pat, i) && forall k: nat :: k < i ==> !OccursAt(s, pat, k)
  }

  /** `stop` is the next occurrence strictly after `i`, or `-1` when there is none. */
  ghost predicate NextAfter(s: Bytes, pat: Bytes, i: nat, stop: int)
  {
    || (stop == -1 && forall k: nat :: i < k ==> !OccursAt(s, pat, k))
    || (i < stop && OccursAt(s, pat, stop) && forall k: nat :: i < k < stop ==> !OccursAt(s, pat, k))
  }

  /**
    What one regular file contributes: nothing when the marker is absent or its
    first occurrence is at offset 0; otherwise one Match whose start is the end of
    the first occurrence and whose stop is the next occurrence, or -1.
   */
  function FileMatch(fname: Path, data: Bytes, marker: Bytes): (r: Option<Match>)
    ensures r.None? <==> Free(data, marker) || OccursAt(data, marker, 0)
    ensures r.Some? ==> r.value.fname == fname
    ensures r.Some? ==> 1 + |marker| <= r.value.start <= |data|
    ensures r.Some? ==> FirstAt(data, marker, r.value.start - |marker|)
    ensures r.Some? ==> NextAfter(data, marker, r.value.start - |marker|, r.value.stop)
  {
    match IndexOf(data, marker, 0)
    case None => None
    case Some(startIdx) =>
      // `startIdx <= 0`: a marker at offset 0 counts as no marker
      if startIdx == 0 then None
      else
        var stopIdx := match IndexOf(data, marker, startIdx + 1)
                       case Some(j) => j
                       case None => -1;
        Some(Match(fname, startIdx + |marker|, stopIdx))
  }

  /** The matches of directory `dir` with listing `es`: those of its entries, in entry order. */
  function DirMatches(dir: Path, es: seq<Entry>, marker: Bytes): seq<Match>
    decreases es
  {
    if es == [] then []
    else DirMatches(dir, es[..|es| - 1], marker) + EntryMatches(dir, es[|es| - 1], marker)
  }

  /** The matches of one entry: a subdirectory is searched recursively, a file on its own. */
  function EntryMatches(dir: Path, e: Entry, marker: Bytes): seq<Match>
    decreases e
  {
    match e.node
    case Dir(sub) => DirMatches(dir + [e.name], sub, marker)
    case File(data) =>
      match FileMatch(dir + [e.name], data, marker)
      case None => []
      case Some(m) => [m]
  }

  /** `findTag(contentDir, tag)`, where `entries` is what `readdirSync(contentDir)` lists. */
  method FindTag(contentDir: Path, entries: seq<Entry>, tag: Bytes) returns (matches: seq<Match>)
    ensures matches == DirMatches(contentDir, entries, Marker(tag))
    decreases entries
  {
    var fullTag := Marker(tag);
    matches := [];
    for i := 0 to |entries|
      invariant matches == DirMatches(contentDir, entries[..i], fullTag)
    {
      var file := entries[i];
      assert entries[..i + 1][..i] == entries[..i];
      assert DirMatches(contentDir, entries[..i + 1], fullTag)
          == matches + EntryMatches(contentDir, file, fullTag);
      var path := contentDir + [file.name];
      match file.node {
        case Dir(sub) =>
          var found := FindTag(path, sub, tag);
          matches := matches + found;
        case File(buff) =>
          var startIdx := IndexOf(buff, fullTag, 0);
          // no match
          if startIdx.None? || startIdx.value == 0 {
            assert FileMatch(path, buff, fullTag).None?;
            continue;
          }
          var stopIdx := IndexOf(buff, fullTag, startIdx.value + 1);
          var m := Match(path, startIdx.value + |fullTag|, if stopIdx.Some? then stopIdx.value else -1);
          assert FileMatch(path, buff, fullTag) == Some(m);
          matches := matches + [m];
      }
    }
    assert entries[..|entries|] == entries;
  }

  /** A tag without a `<` byte gives a marker that cannot overlap itself. */
  lemma MarkerOverlapFree(tag: Bytes)
    requires 0x3C !in tag
    ensures SelfOverlapFree(Marker(tag))
  {
    var m := Marker(tag);
    forall k | 0 < k < |m| ensures m[k..] != m[..|m| - k] {
      assert m[k] != 0x3C by {
        if 4 <= k < 4 + |tag| {
          assert m[k] == tag[k - 4];
        }
      }
      assert m[k..][0] == m[k];
    }
  }

  /**
    With a marker that cannot overlap itself, a closing marker lies after the whole
    opening marker: the region is `start <= stop`, and the closer fits in the file.
   */
  lemma StopAfterStart(fname: Path, data: Bytes, marker: Bytes)
    requires SelfOverlapFree(marker)
    requires FileMatch(fname, data, marker).Some?
    requires FileMatch(fname, data, marker).value.stop != -1
    ensures var m := FileMatch(fname, data, marker).value;
            m.start <= m.stop <= |data| - |marker|
  {
    var m := FileMatch(fname, data, marker).value;
    OccurrencesApart(data, marker, m.start - |marker|);
  }

  /**
    The matches of a well-formed tree are exactly the matches of its tagged files:
    each names a file of the tree and is that file's own match, every tagged file has
    its match in the list, and no file is named twice.
   */
  ghost predicate MatchesOf(ms: seq<Match>, files: map<Path, Bytes>, marker: Bytes)
  {
    && (forall m :: m in ms ==>
          m.fname in files && FileMatch(m.fname, files[m.fname], marker) == Some(m))
    && (forall p :: p in files && FileMatch(p, files[p], marker).Some? ==>
          FileMatch(p, files[p], marker).value in ms)
    && (forall i, j :: 0 <= i < j < |ms| ==> ms[i].fname != ms[j].fname)
  }

  lemma {:induction false} DirMatchesAreFileMatches(dir: Path, es: seq<Entry>, marker: Bytes)
    requires WellFormed(es)
    ensures MatchesOf(DirMatches(dir, es, marker), Files(dir, es), marker)
    decreases es
  {
    if es != [] {
      var init, last := es[..|es| - 1], es[|es| - 1];
      assert WellFormed(init) by {
        forall i | 0 <= i < |init| ensures init[i] == es[i] { }
      }
      assert last.node.Dir? ==> WellFormed(last.node.entries);
      DirMatchesAreFileMatches(dir, init, marker);
      EntryMatchesAreFileMatches(dir, last, marker);
      FilesUnder(dir, init);
      EntryFilesUnder(dir, last);
      var fa, fb := Files(dir, init), EntryFiles(dir, last);
      var ma, mb := DirMatches(dir, init, marker), EntryMatches(dir, last, marker);
      forall i | 0 <= i < |init| ensures init[i].name != last.name {
        assert init[i] == es[i];
      }
      forall p | p in fb ensures p !in fa {
        assert p[..|dir| + 1][|dir|] == last.name;
      }
      MatchesOfUnion(ma, fa, mb, fb, marker);
    }
  }

  /** Match lists of two disjoint sets of files join into the match list of their union. */
  lemma MatchesOfUnion(ma: seq<Match>, fa: map<Path, Bytes>, mb: seq<Match>, fb: map<Path, Bytes>,
                       marker: Bytes)
    requires MatchesOf(ma, fa, marker) && MatchesOf(mb, fb, marker)
    requires fa.Keys !! fb.Keys
    ensures MatchesOf(ma + mb, fa + fb, marker)
  {
    var ms, files := ma + mb, fa + fb;
    forall m | m in ms
      ensures m.fname in files && FileMatch(m.fname, files[m.fname], marker) == Some(m)
    {
      if m in ma {
        assert files[m.fname] == fa[m.fname];
      } else {
        assert files[m.fname] == fb[m.fname];
      }
    }
    forall p | p in files && FileMatch(p, files[p], marker).Some?
      ensures FileMatch(p, files[p], marker).value in ms
    {
      if p in fb {
        assert files[p] == fb[p];
      } else {
        assert files[p] == fa[p];
      }
    }
    forall i, j | 0 <= i < j < |ms| ensures ms[i].fname != ms[j].fname {
      if j < |ma| {
        assert ms[i] == ma[i] && ms[j] == ma[j];
      } else if |ma| <= i {
        assert ms[i] == mb[i - |ma|] && ms[j] == mb[j - |ma|];
      } else {
        assert ms[i] in ma && ms[j] in mb;
      }
    }
  }

  lemma {:induction false} EntryMatchesAreFileMatches(dir: Path, e: Entry, marker: Bytes)
    requires e.node.Dir? ==> WellFormed(e.node.entries)
    ensures MatchesOf(EntryMatches(dir, e, marker), EntryFiles(dir, e), marker)
    decreases e
  {
    match e.node
    case Dir(sub) => DirMatchesAreFileMatches(dir + [e.name], sub, marker);
    case File(data) =>
  }
}
