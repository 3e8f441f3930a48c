/**
  The content injector: `overwriteGenerated` locates every region for a tag and
  replaces it with `\n${content}\n`, keeping the bytes before the region's start
  and from its stop onward.
 */
module ContentInjector {
  import opened Wrappers
  import opened ByteSearch
  import opened FileTree
  import opened TagLocator

  const Newline: byte := 0x0A

  /** The injected bytes `\n${content}\n`. */
  function Framed(content: Bytes): Bytes
  {
    [Newline] + content + [Newline]
  }

  /** An index as `Buffer.subarray` reads it: negative counts back from the end; clamped to `[0, len]`. */
  function Clamp(i: int, len: nat): nat
  {
    if i < 0 then (if len + i < 0 then 0 else len + i)
    else if i > len then len
    else i
  }

  /** `b.subarray(begin, end)`: empty when the clamped end precedes the clamped begin. */
  function Subarray(b: Bytes, begin: int, end: int): Bytes
  {
    var lo, hi := Clamp(begin, |b|), Clamp(end, |b|);
    if lo <= hi then b[lo..hi] else []
  }

  /**
    The splice exactly as written: `concat([prior.subarray(0, start), \n content \n, prior.subarray(stop)])`.
    Whatever `stop` is, the head up to the clamped `start` is kept and the framed content follows it.
   */
  function SpliceAsWritten(prior: Bytes, m: Match, content: Bytes): (r: Bytes)
    ensures var h := Clamp(m.start, |prior|);
            && h + |content| + 2 <= |r|
            && r[..h] == prior[..h]
            && r[h..h + |content| + 2] == Framed(content)
  {
    Subarray(prior, 0, m.start) + Framed(content) + Subarray(prior, m.stop, |prior|)
  }

  datatype InjectError = MalformedRegion(fname: Path)

  /** The match bounds a region of the file: a closing marker was found after the opening one. */
  predicate ValidRegion(data: Bytes, m: Match)
  {
    m.start <= m.stop <= |data|
  }

  /**
    The splice with the closing marker required: the head `[0, start)` and the tail
    `[stop, end)` are kept byte for byte and `\n content \n` goes between them; a
    match without a closing marker after its opener is a malformed region.
   */
  function Splice(data: Bytes, m: Match, content: Bytes): (r: Result<Bytes, InjectError>)
    ensures r.Failure? <==> !ValidRegion(data, m)
    ensures r.Failure? ==> r.error == MalformedRegion(m.fname)
  {
    if ValidRegion(data, m) then Success(data[..m.start] + Framed(content) + data[m.stop..])
    else Failure(MalformedRegion(m.fname))
  }

  /**
    A successful splice keeps the head `[0, start)` and the tail `[stop, end)` byte
    for byte, with exactly `\n content \n` between them.
   */
  lemma SplicePreserves(data: Bytes, m: Match, content: Bytes)
    requires ValidRegion(data, m)
    ensures var r := Splice(data, m, content).value;
            && |r| == m.start + |content| + 2 + (|data| - m.stop)
            && r[..m.start] == data[..m.start]
            && r[m.start..m.start + |content| + 2] == Framed(content)
            && r[m.start + |content| + 2..] == data[m.stop..]
  {
  }

  /** On a region with a closing marker, the splice of `overwriteGenerated` and the checked one agree. */
  lemma SpliceAgreesWithSource(data: Bytes, m: Match, content: Bytes)
    requires ValidRegion(data, m)
    ensures Splice(data, m, content) == Success(SpliceAsWritten(data, m, content))
  {
    assert Subarray(data, 0, m.start) == data[..m.start];
    assert Subarray(data, m.stop, |data|) == data[m.stop..];
  }

  /**
    As written, a match without a closing marker (`stop == -1`) is spliced anyway:
    `subarray(-1)` is the file's last byte, so the bytes between the opening marker
    and that byte are dropped and no closing marker remains. The checked splice
    reports the region as malformed instead.
   */
  lemma MissingCloserKeepsLastByte(p: Path, data: Bytes, marker: Bytes, content: Bytes)
    requires FileMatch(p, data, marker).Some?
    requires FileMatch(p, data, marker).value.stop == -1
    ensures var m := FileMatch(p, data, marker).value;
            && SpliceAsWritten(data, m, content) == data[..m.start] + Framed(content) + [data[|data| - 1]]
            && Splice(data, m, content) == Failure(MalformedRegion(p))
  {
    var m := FileMatch(p, data, marker).value;
    assert Subarray(data, 0, m.start) == data[..m.start];
    assert Subarray(data, m.stop, |data|) == [data[|data| - 1]];
  }

  /**
    The input `X<!--T-->ab` with tag `T` and content `n`: the file has an opener and
    no closer, yet as written it becomes `X<!--T-->\nn\nb`, losing the `a`.
   */
  lemma MissingCloserExample()
    ensures var tag: Bytes := [0x54];
            var data := [0x58] + Marker(tag) + [0x61, 0x62];
            var m := Match(["a.md"], 9, -1);
            && FileMatch(["a.md"], data, Marker(tag)) == Some(m)
            && SpliceAsWritten(data, m, [0x6E]) == [0x58] + Marker(tag) + [0x0A, 0x6E, 0x0A, 0x62]
            && Splice(data, m, [0x6E]) == Failure(MalformedRegion(["a.md"]))
  {
    var tag: Bytes := [0x54];
    var marker := Marker(tag);
    var data := [0x58] + marker + [0x61, 0x62];
    assert marker == [0x3C, 0x21, 0x2D, 0x2D, 0x54, 0x2D, 0x2D, 0x3E];
    assert !OccursAt(data, marker, 0) by { assert data[0..8][0] == 0x58; }
    assert OccursAt(data, marker, 1) by { assert data[1..9] == marker; }
    assert !OccursAt(data, marker, 2) by { assert data[2..10][0] == 0x21; }
    assert !OccursAt(data, marker, 3) by { assert data[3..11][0] == 0x2D; }
    assert IndexOf(data, marker, 0) == Some(1);
    assert IndexOf(data, marker, 2) == None;
    MissingCloserKeepsLastByte(["a.md"], data, marker, [0x6E]);
  }

  /** A file's bytes after the rewrite of one match: spliced, or unchanged when the region is malformed. */
  function Rewrite(data: Bytes, m: Match, content: Bytes): Bytes
  {
    match Splice(data, m, content)
    case Success(rewritten) => rewritten
    case Failure(_) => data
  }

  /** A file's bytes after injection: rewritten at its own match, if it has one. */
  function InjectFile(p: Path, data: Bytes, marker: Bytes, content: Bytes): Bytes
  {
    match FileMatch(p, data, marker)
    case None => data
    case Some(m) => Rewrite(data, m, content)
  }

  /** Every file of `files` after one injection of `content` at `marker`. */
  function Injected(files: map<Path, Bytes>, marker: Bytes, content: Bytes): map<Path, Bytes>
  {
    map p | p in files :: InjectFile(p, files[p], marker, content)
  }

  /** The files that matches name. */
  function Fnames(ms: seq<Match>): set<Path>
  {
    set m | m in ms :: m.fname
  }

  /**
    `overwriteGenerated(tag, content)` on the content directory `contentDir` listing
    `root`. Returns the files afterwards, whether the "no tags" diagnostic was given,
    and the files skipped because their region has no closing marker.
   */
  method OverwriteGenerated(contentDir: Path, root: seq<Entry>, tag: Bytes, content: Bytes)
    returns (files: map<Path, Bytes>, noTags: bool, malformed: seq<Path>)
    requires WellFormed(root)
    ensures files == Injected(Files(contentDir, root), Marker(tag), content)
    ensures noTags <==> DirMatches(contentDir, root, Marker(tag)) == []
    ensures noTags ==> malformed == []
    ensures forall p :: p in malformed <==>
              && p in Files(contentDir, root)
              && FileMatch(p, Files(contentDir, root)[p], Marker(tag)).Some?
              && !ValidRegion(Files(contentDir, root)[p], FileMatch(p, Files(contentDir, root)[p], Marker(tag)).value)
  {
    var fs0 := Files(contentDir, root);
    var marker := Marker(tag);
    var matches := FindTag(contentDir, root, tag);
    DirMatchesAreFileMatches(contentDir, root, marker);
    MatchedFilesDistinct(matches, fs0, marker);
    RewriteAllIsInjected(fs0, matches, marker, content);
    MalformedMatches(fs0, matches, marker);
    noTags := |matches| == 0;
    if noTags {
      // `overwriteGenerated` reports `no tags for ${tag}` and writes nothing
      files, malformed := fs0, [];
      NoMatchesUntagged(matches, fs0, marker, content);
      return;
    }
    files, malformed := RewriteMatches(fs0, matches, content);
  }

  /**
    The loop of `overwriteGenerated`: each match in turn has its file read, spliced
    and written back; a match whose region is malformed leaves its file as it is.
   */
  method RewriteMatches(fs0: map<Path, Bytes>, matches: seq<Match>, content: Bytes)
    returns (files: map<Path, Bytes>, malformed: seq<Path>)
    requires forall k :: 0 <= k < |matches| ==> matches[k].fname in fs0
    requires forall k, l :: 0 <= k < l < |matches| ==> matches[k].fname != matches[l].fname
    ensures files == RewriteAll(fs0, matches, content)
    ensures malformed == MalformedNames(fs0, matches)
  {
    files, malformed := fs0, [];
    for i := 0 to |matches|
      invariant files == RewriteAll(fs0, matches[..i], content)
      invariant malformed == MalformedNames(fs0, matches[..i])
    {
      var found := matches[i];
      UnchangedBeforeRewrite(fs0, matches, i, content);
      RewriteStep(fs0, matches, i, content);
      var oldFile := files[found.fname];
      match Splice(oldFile, found, content) {
        case Success(newFile) =>
          files := files[found.fname := newFile];
        case Failure(_) =>
          malformed := malformed + [found.fname];
      }
    }
    assert matches[..|matches|] == matches;
  }

  /** The matches of all tagged files name distinct files of the tree. */
  lemma MatchedFilesDistinct(ms: seq<Match>, files: map<Path, Bytes>, marker: Bytes)
    requires MatchesOf(ms, files, marker)
    ensures forall k :: 0 <= k < |ms| ==> ms[k].fname in files
    ensures forall k, l :: 0 <= k < l < |ms| ==> ms[k].fname != ms[l].fname
  {
    forall k | 0 <= k < |ms| ensures ms[k].fname in files {
      assert ms[k] in ms;
    }
  }

  /** The files after the rewrite of each match in turn, each file read afresh as `overwriteGenerated` does. */
  function RewriteAll(files: map<Path, Bytes>, ms: seq<Match>, content: Bytes): map<Path, Bytes>
  {
    if ms == [] then files
    else
      var prev := RewriteAll(files, ms[..|ms| - 1], content);
      var m := ms[|ms| - 1];
      if m.fname in prev && Splice(prev[m.fname], m, content).Success?
      then prev[m.fname := Splice(prev[m.fname], m, content).value]
      else prev
  }

  /**
    Matches that name distinct files of `files` rewrite each of those files once,
    from its original bytes, and leave every other file as it was.
   */
  lemma {:induction false} RewriteAllAt(files: map<Path, Bytes>, ms: seq<Match>, content: Bytes)
    requires forall k :: 0 <= k < |ms| ==> ms[k].fname in files
    requires forall k, l :: 0 <= k < l < |ms| ==> ms[k].fname != ms[l].fname
    ensures RewriteAll(files, ms, content).Keys == files.Keys
    ensures forall k :: 0 <= k < |ms| ==>
              RewriteAll(files, ms, content)[ms[k].fname] == Rewrite(files[ms[k].fname], ms[k], content)
    ensures forall p :: p in files && (forall k :: 0 <= k < |ms| ==> ms[k].fname != p) ==>
              RewriteAll(files, ms, content)[p] == files[p]
  {
    if ms != [] {
      var init, last := ms[..|ms| - 1], ms[|ms| - 1];
      RewriteAllAt(files, init, content);
      forall k | 0 <= k < |init| ensures init[k] == ms[k] && init[k].fname != last.fname { }
    }
  }

  /** One more match rewrites its file's current bytes and records it if malformed. */
  lemma RewriteStep(files: map<Path, Bytes>, ms: seq<Match>, i: nat, content: Bytes)
    requires i < |ms|
    ensures var prev, m := RewriteAll(files, ms[..i], content), ms[i];
            RewriteAll(files, ms[..i + 1], content)
              == if m.fname in prev && Splice(prev[m.fname], m, content).Success?
                 then prev[m.fname := Splice(prev[m.fname], m, content).value]
                 else prev
    ensures MalformedNames(files, ms[..i + 1])
              == MalformedNames(files, ms[..i])
                   + if ms[i].fname in files && !ValidRegion(files[ms[i].fname], ms[i]) then [ms[i].fname] else []
  {
    assert ms[..i + 1][..i] == ms[..i];
  }

  /** Before its turn, the file of a match still holds its original bytes. */
  lemma UnchangedBeforeRewrite(files: map<Path, Bytes>, ms: seq<Match>, i: nat, content: Bytes)
    requires i < |ms|
    requires forall k :: 0 <= k < |ms| ==> ms[k].fname in files
    requires forall k, l :: 0 <= k < l < |ms| ==> ms[k].fname != ms[l].fname
    ensures ms[i].fname in RewriteAll(files, ms[..i], content)
    ensures RewriteAll(files, ms[..i], content)[ms[i].fname] == files[ms[i].fname]
  {
    RewriteAllAt(files, ms[..i], content);
    assert forall k :: 0 <= k < |ms[..i]| ==> ms[..i][k].fname != ms[i].fname;
  }

  /** Rewriting the matches of all tagged files, in any order, is the injection of every file. */
  lemma RewriteAllIsInjected(files: map<Path, Bytes>, ms: seq<Match>, marker: Bytes, content: Bytes)
    requires MatchesOf(ms, files, marker)
    ensures RewriteAll(files, ms, content) == Injected(files, marker, content)
  {
    forall k | 0 <= k < |ms| ensures ms[k].fname in files {
      assert ms[k] in ms;
    }
    RewriteAllAt(files, ms, content);
    var after := RewriteAll(files, ms, content);
    forall p | p in files ensures after[p] == InjectFile(p, files[p], marker, content) {
      if FileMatch(p, files[p], marker).Some? {
        var k :| 0 <= k < |ms| && ms[k] == FileMatch(p, files[p], marker).value;
      } else {
        forall k | 0 <= k < |ms| ensures ms[k].fname != p {
          assert ms[k] in ms;
        }
      }
    }
  }

  /** The files of the matches whose region has no closing marker after its opener, in match order. */
  function MalformedNames(files: map<Path, Bytes>, ms: seq<Match>): seq<Path>
  {
    if ms == [] then []
    else
      var last := ms[|ms| - 1];
      MalformedNames(files, ms[..|ms| - 1])
        + if last.fname in files && !ValidRegion(files[last.fname], last) then [last.fname] else []
  }

  /** The files reported malformed are the tagged files whose match has no closing marker after its opener. */
  lemma {:induction false} MalformedMatches(files: map<Path, Bytes>, ms: seq<Match>, marker: Bytes)
    requires MatchesOf(ms, files, marker)
    ensures forall p :: p in MalformedNames(files, ms) <==>
              && p in files
              && FileMatch(p, files[p], marker).Some?
              && !ValidRegion(files[p], FileMatch(p, files[p], marker).value)
  {
    MalformedNamesAt(files, ms);
    forall p | p in files && FileMatch(p, files[p], marker).Some? && !ValidRegion(files[p], FileMatch(p, files[p], marker).value)
      ensures p in MalformedNames(files, ms)
    {
      var k :| 0 <= k < |ms| && ms[k] == FileMatch(p, files[p], marker).value;
    }
  }

  lemma {:induction false} MalformedNamesAt(files: map<Path, Bytes>, ms: seq<Match>)
    ensures forall p :: p in MalformedNames(files, ms) <==>
              exists k :: 0 <= k < |ms| && ms[k].fname == p && p in files && !ValidRegion(files[p], ms[k])
  {
    if ms != [] {
      var init := ms[..|ms| - 1];
      MalformedNamesAt(files, init);
      forall p | p in MalformedNames(files, ms)
        ensures exists k :: 0 <= k < |ms| && ms[k].fname == p && p in files && !ValidRegion(files[p], ms[k])
      {
        if p in MalformedNames(files, init) {
          var k :| 0 <= k < |init| && init[k].fname == p && p in files && !ValidRegion(files[p], init[k]);
          assert ms[k] == init[k];
        }
      }
      forall p | exists k :: 0 <= k < |ms| && ms[k].fname == p && p in files && !ValidRegion(files[p], ms[k])
        ensures p in MalformedNames(files, ms)
      {
        var k :| 0 <= k < |ms| && ms[k].fname == p && p in files && !ValidRegion(files[p], ms[k]);
        if k < |init| {
          assert init[k] == ms[k];
        }
      }
    }
  }

  /** When the walk finds no match, no file of the tree changes. */
  lemma NoMatchesNoWrites(dir: Path, root: seq<Entry>, marker: Bytes, content: Bytes)
    requires WellFormed(root)
    ensures DirMatches(dir, root, marker) == [] ==> Injected(Files(dir, root), marker, content) == Files(dir, root)
  {
    DirMatchesAreFileMatches(dir, root, marker);
    NoMatchesUntagged(DirMatches(dir, root, marker), Files(dir, root), marker, content);
  }

  /** A complete match list is empty exactly when no file is tagged, and then nothing changes. */
  lemma NoMatchesUntagged(ms: seq<Match>, files: map<Path, Bytes>, marker: Bytes, content: Bytes)
    requires MatchesOf(ms, files, marker)
    ensures ms == [] <==> forall p :: p in files ==> FileMatch(p, files[p], marker).None?
    ensures ms == [] ==> Injected(files, marker, content) == files
  {
    if ms == [] {
      forall p | p in files ensures FileMatch(p, files[p], marker).None? { }
    } else {
      assert ms[0] in ms;
      var p := ms[0].fname;
      assert p in files && FileMatch(p, files[p], marker).Some?;
    }
  }

  /** A file that no match names keeps its bytes. */
  lemma UntaggedFilesUnchanged(dir: Path, root: seq<Entry>, marker: Bytes, content: Bytes)
    requires WellFormed(root)
    ensures forall p :: p in Files(dir, root) && p !in Fnames(DirMatches(dir, root, marker)) ==>
              Injected(Files(dir, root), marker, content)[p] == Files(dir, root)[p]
  {
    DirMatchesAreFileMatches(dir, root, marker);
  }

  /** Content free of a marker that neither starts nor ends with a newline stays free of it once framed. */
  lemma FramedFree(content: Bytes, pat: Bytes)
    requires Free(content, pat)
    requires |pat| > 0 && pat[0] != Newline && pat[|pat| - 1] != Newline
    ensures Free(Framed(content), pat)
  {
    var f := Framed(content);
    forall k: nat ensures !OccursAt(f, pat, k) {
      if k + |pat| > |f| {
      } else if k == 0 {
        assert f[k..k + |pat|][0] == Newline;
      } else if k + |pat| == |f| {
        assert f[k..k + |pat|][|pat| - 1] == Newline;
      } else {
        assert f[k..k + |pat|] == content[k - 1..k - 1 + |pat|];
        assert !OccursAt(content, pat, k - 1);
      }
    }
  }

  /** A first occurrence stays first when the bytes up to its end are kept. */
  lemma FirstKept(data: Bytes, d: Bytes, marker: Bytes, i: nat)
    requires FirstAt(data, marker, i)
    requires i + |marker| <= |d| && d[..i + |marker|] == data[..i + |marker|]
    ensures FirstAt(d, marker, i)
  {
    var e := i + |marker|;
    OccursInPrefix(data, marker, i, e);
    OccursInPrefix(d, marker, i, e);
    forall k: nat | k < i ensures !OccursAt(d, marker, k) {
      assert !OccursAt(data, marker, k);
      OccursInPrefix(data, marker, k, e);
      OccursInPrefix(d, marker, k, e);
    }
  }

  /**
    After an opening marker at `i` and framed content free of the marker, the next
    marker is the one that directly follows the framed content.
   */
  lemma NextAfterFramed(d: Bytes, marker: Bytes, i: nat, content: Bytes)
    requires SelfOverlapFree(marker)
    requires |marker| > 0 && marker[0] != Newline && marker[|marker| - 1] != Newline
    requires Free(content, marker)
    requires OccursAt(d, marker, i)
    requires i + |marker| + |content| + 2 <= |d|
    requires d[i + |marker|..i + |marker| + |content| + 2] == Framed(content)
    requires OccursAt(d, marker, i + |marker| + |content| + 2)
    ensures NextAfter(d, marker, i, i + |marker| + |content| + 2)
  {
    var n, s := |marker|, i + |marker|;
    var t := s + |content| + 2;
    OccurrencesApart(d, marker, i);
    OccurrencesApart(d, marker, t);
    FramedFree(content, marker);
    forall k: nat | s <= k && k + n <= t ensures !OccursAt(d, marker, k) {
      assert d[k..k + n] == d[s..t][k - s..k - s + n];
      assert !OccursAt(Framed(content), marker, k - s);
    }
  }

  /** The contract of FileMatch determines its result: a first marker at `i >= 1` and the next at `stop`. */
  lemma FileMatchDetermined(p: Path, data: Bytes, marker: Bytes, i: nat, stop: int)
    requires 1 <= i && FirstAt(data, marker, i)
    requires NextAfter(data, marker, i, stop)
    ensures FileMatch(p, data, marker) == Some(Match(p, i + |marker|, stop))
  {
    var r := FileMatch(p, data, marker);
    assert !OccursAt(data, marker, 0);
    assert r.Some?;
    var i' := r.value.start - |marker|;
    assert i' == i by {
      assert !(i' < i) && !(i < i');
    }
  }

  /**
    Splicing framed content free of the marker between a first marker at `i` and a
    later one at `t` keeps the first marker first and puts the next one right after
    the framed content.
   */
  lemma SplicedOccurrences(p: Path, data: Bytes, m: Match, marker: Bytes, i: nat, content: Bytes)
    requires SelfOverlapFree(marker)
    requires |marker| > 0 && marker[0] != Newline && marker[|marker| - 1] != Newline
    requires Free(content, marker)
    requires ValidRegion(data, m) && m.start == i + |marker| && 1 <= i
    requires FirstAt(data, marker, i) && OccursAt(data, marker, m.stop)
    ensures Splice(data, m, content).Success?
    ensures FileMatch(p, Splice(data, m, content).value, marker)
              == Some(Match(p, m.start, m.start + |content| + 2))
  {
    var n, s, t := |marker|, m.start, m.stop;
    var t' := s + |content| + 2;
    var d := Splice(data, m, content).value;
    assert d == data[..s] + Framed(content) + data[t..];
    assert d[..s] == data[..s];
    FirstKept(data, d, marker, i);
    assert d[s..t'] == Framed(content);
    assert d[t'..t' + n] == data[t..t + n];
    NextAfterFramed(d, marker, i, content);
    FileMatchDetermined(p, d, marker, i, t');
  }

  /**
    Locating the tag again in a file that was rewritten with content free of the
    marker finds the same start, and a stop just after the injected bytes.
   */
  lemma RelocateAfterInject(p: Path, data: Bytes, tag: Bytes, content: Bytes, m: Match)
    requires SelfOverlapFree(Marker(tag))
    requires Free(content, Marker(tag))
    requires FileMatch(p, data, Marker(tag)) == Some(m)
    requires ValidRegion(data, m)
    ensures Splice(data, m, content).Success?
    ensures FileMatch(p, Splice(data, m, content).value, Marker(tag))
              == Some(Match(p, m.start, m.start + |content| + 2))
  {
    var marker := Marker(tag);
    assert marker[0] == 0x3C && marker[|marker| - 1] == 0x3E;
    assert OccursAt(data, marker, m.stop);
    SplicedOccurrences(p, data, m, marker, m.start - |marker|, content);
  }

  /** A file rewritten with content free of the marker is a fixed point of the next injection. */
  lemma InjectFileIdempotent(p: Path, data: Bytes, tag: Bytes, content: Bytes)
    requires SelfOverlapFree(Marker(tag))
    requires Free(content, Marker(tag))
    ensures var once := InjectFile(p, data, Marker(tag), content);
            InjectFile(p, once, Marker(tag), content) == once
  {
    var marker := Marker(tag);
    match FileMatch(p, data, marker)
    case None =>
    case Some(m) =>
      if ValidRegion(data, m) {
        var d := Splice(data, m, content).value;
        var m' := Match(p, m.start, m.start + |content| + 2);
        RelocateAfterInject(p, data, tag, content, m);
        SplicePreserves(data, m, content);
        assert Splice(d, m', content).value == d by {
          assert d[..m.start] == data[..m.start];
          assert d[m'.stop..] == data[m.stop..];
        }
      }
  }

  /** Injecting the same content twice leaves every file as one injection did. */
  lemma InjectedIdempotent(files: map<Path, Bytes>, tag: Bytes, content: Bytes)
    requires SelfOverlapFree(Marker(tag))
    requires Free(content, Marker(tag))
    ensures var once := Injected(files, Marker(tag), content);
            Injected(once, Marker(tag), content) == once
  {
    var once := Injected(files, Marker(tag), content);
    forall p | p in files ensures InjectFile(p, once[p], Marker(tag), content) == once[p] {
      InjectFileIdempotent(p, files[p], tag, content);
    }
  }
}
