/**
  The documentation tree the locator walks. `readdirSync` becomes the sequence of
  entries of a directory, in the order the sequence gives; `statSync(..).isDirectory()`
  becomes the constructor of the entry's node; the path `${dir}/${name}` becomes the
  component list `dir + [name]`.
 */
module FileTree {
  import opened ByteSearch

  type Name = string

  type Path = seq<Name>

  datatype Node = File(data: Bytes) | Dir(entries: seq<Entry>)

  datatype Entry = Entry(name: Name, node: Node)

  /** Every directory of the tree lists each name at most once, as a filesystem does. */
  predicate WellFormed(es: seq<Entry>)
  {
    && (forall i, j :: 0 <= i < j < |es| ==> es[i].name != es[j].name)
    && (forall i :: 0 <= i < |es| && es[i].node.Dir? ==> WellFormed(es[i].node.entries))
  }

  function NamesOf(es: seq<Entry>): set<Name>
  {
    set i | 0 <= i < |es| :: es[i].name
  }

  /** The regular files under directory `dir` (whose listing is `es`), by full path. */
  function Files(dir: Path, es: seq<Entry>): map<Path, Bytes>
    decreases es
  {
    if es == [] then map[]
    else Files(dir, es[..|es| - 1]) + EntryFiles(dir, es[|es| - 1])
  }

  /** The regular files at or under the entry `e` of directory `dir`. */
  function EntryFiles(dir: Path, e: Entry): map<Path, Bytes>
    decreases e
  {
    match e.node
    case File(data) => map[dir + [e.name] := data]
    case Dir(sub) => Files(dir + [e.name], sub)
  }

  /** Every file under `dir` lies strictly below it, under one of its entries. */
  lemma {:induction false} FilesUnder(dir: Path, es: seq<Entry>)
    ensures forall p :: p in Files(dir, es) ==>
              |dir| < |p| && p[..|dir|] == dir && p[|dir|] in NamesOf(es)
    decreases es
  {
    if es != [] {
      var init, last := es[..|es| - 1], es[|es| - 1];
      FilesUnder(dir, init);
      EntryFilesUnder(dir, last);
      assert NamesOf(es) == NamesOf(init) + {last.name} by {
        forall n | n in NamesOf(es) ensures n in NamesOf(init) + {last.name} {
          var i :| 0 <= i < |es| && es[i].name == n;
          if i < |es| - 1 { assert init[i] == es[i]; }
        }
        forall n | n in NamesOf(init) ensures n in NamesOf(es) {
          var i :| 0 <= i < |init| && init[i].name == n;
          assert es[i] == init[i];
        }
      }
    }
  }

  /** Every file at or under entry `e` has the path `dir + [e.name]` as a prefix. */
  lemma {:induction false} EntryFilesUnder(dir: Path, e: Entry)
    ensures forall p :: p in EntryFiles(dir, e) ==>
              |dir| < |p| && p[..|dir| + 1] == dir + [e.name]
    decreases e
  {
    match e.node
    case File(data) =>
    case Dir(sub) =>
      var sdir := dir + [e.name];
      FilesUnder(sdir, sub);
      forall p | p in EntryFiles(dir, e) ensures p[..|dir| + 1] == sdir {
        assert p[..|sdir|] == sdir;
      }
  }
}
