/** An immutable snapshot of a directory tree, the enumeration that
    `Path.rglob("*")` walks, and `get_folder_size`. */
module FileTree {
  import opened Seqs

  /** A directory entry: a regular file with its byte size, or a
      directory with its children in iteration order. */
  datatype Entry = File(name: string, size: nat) | Dir(name: string, children: seq<Entry>)

  predicate IsFile(e: Entry) { e.File? }

  predicate IsDir(e: Entry) { e.Dir? }

  /** Every entry at any depth below `es`, each directory followed by
      what lies inside it (the entries `rglob("*")` yields). */
  function Descendants(es: seq<Entry>): seq<Entry>
  {
    if es == [] then []
    else [es[0]] + (if es[0].Dir? then Descendants(es[0].children) else []) + Descendants(es[1..])
  }

  /** `rglob("*")` on a folder: everything below it, the folder excluded. */
  function RGlob(folder: Entry): seq<Entry>
    requires folder.Dir?
  {
    Descendants(folder.children)
  }

  /** Sum of the sizes of the regular files in `es`; directories add nothing. */
  function SizeSum(es: seq<Entry>): nat
  {
    if es == [] then 0
    else SizeSum(es[..|es| - 1]) + (if es[|es| - 1].File? then es[|es| - 1].size else 0)
  }

  /** The size of a forest by structural recursion: a file counts its
      own size, a directory the size of what it contains. */
  function TreeSize(es: seq<Entry>): nat
  {
    if es == [] then 0
    else (match es[0] case File(_, n) => n case Dir(_, cs) => TreeSize(cs)) + TreeSize(es[1..])
  }

  lemma {:induction false} SizeSumAppend(a: seq<Entry>, b: seq<Entry>)
    ensures SizeSum(a + b) == SizeSum(a) + SizeSum(b)
    decreases |b|
  {
    if b == [] {
      assert a + b == a;
    } else {
      var b' := b[..|b| - 1];
      assert (a + b)[..|a + b| - 1] == a + b';
      SizeSumAppend(a, b');
    }
  }

  /** Summing the file sizes of the flat enumeration gives the
      structural size of the tree. */
  lemma {:induction false} DescendantsSize(es: seq<Entry>)
    ensures SizeSum(Descendants(es)) == TreeSize(es)
    decreases es
  {
    if es != [] {
      var head := if es[0].Dir? then Descendants(es[0].children) else [];
      SizeSumAppend([es[0]] + head, Descendants(es[1..]));
      SizeSumAppend([es[0]], head);
      assert SizeSum([es[0]]) == if es[0].File? then es[0].size else 0 by {
        assert [es[0]][..0] == [];
      }
      if es[0].Dir? {
        DescendantsSize(es[0].children);
      }
      DescendantsSize(es[1..]);
    }
  }

  /** `get_folder_size`: walks every entry under `folder` and adds up the
      sizes of the regular files, at any depth. */
  method GetFolderSize(folder: Entry) returns (total: nat)
    requires folder.Dir?
    ensures total == SizeSum(RGlob(folder))
    ensures total == TreeSize(folder.children)
  {
    var all := RGlob(folder);
    total := 0;
    for i := 0 to |all|
      invariant total == SizeSum(all[..i])
    {
      assert all[..i + 1][..i] == all[..i];
      if all[i].File? {
        total := total + all[i].size;
      }
    }
    assert all[..|all|] == all;
    DescendantsSize(folder.children);
  }

  /** Filtering two permutations of each other gives permutations of each other. */
  lemma FilterPermutation(p: Entry -> bool, s: seq<Entry>, t: seq<Entry>)
    requires multiset(s) == multiset(t)
    ensures multiset(Filter(p, s)) == multiset(Filter(p, t))
  {
    forall x: Entry ensures multiset(Filter(p, s))[x] == multiset(Filter(p, t))[x] {
      FilterMultiset(p, s, x);
      FilterMultiset(p, t, x);
    }
  }
}
