// Day 7: No Space Left On Device. The terminal transcript is folded into a
// flat list of directories; sizes are computed recursively over it.

module NoSpaceLeftOnDevice {
  import opened Common

  /** One directory: the total size of the files listed directly in it, the
      indices of its subdirectories, its name and its parent's index. */
  datatype Dir = Dir(size: nat, dirs: seq<nat>, name: string, parent: Option<nat>)

  /** Every listed subdirectory comes after its parent and points back to it. */
  predicate ChildrenAfter(fs: seq<Dir>)
  {
    forall i, k :: 0 <= i < |fs| && 0 <= k < |fs[i].dirs| ==>
      i < fs[i].dirs[k] < |fs| && fs[fs[i].dirs[k]].parent == Some(i)
  }

  /** Every directory but the root has an earlier parent that lists it. */
  predicate ParentsList(fs: seq<Dir>)
  {
    forall c :: 0 < c < |fs| ==>
      fs[c].parent.Some? && fs[c].parent.value < c && c in fs[fs[c].parent.value].dirs
  }

  /** The shape `parse_input` builds: the root "/" at index 0, without a
      parent, and parent/child links that agree. */
  predicate Tree(fs: seq<Dir>)
  {
    |fs| > 0 && fs[0].parent.None? && fs[0].name == "/" && ChildrenAfter(fs) && ParentsList(fs)
  }

  // ---------------------------------------------------------------------
  // get_dir_size

  /** `get_dir_size`: the directory's own files plus the sizes of its
      subdirectories. */
  function DirSize(fs: seq<Dir>, idx: nat): (s: nat)
    requires Tree(fs) && idx < |fs|
    ensures s >= fs[idx].size
    decreases |fs| - idx, 1
  {
    fs[idx].size + ChildrenSize(fs, idx, |fs[idx].dirs|)
  }

  /** The sizes of the first `k` subdirectories of `idx`. */
  function ChildrenSize(fs: seq<Dir>, idx: nat, k: nat): nat
    requires Tree(fs) && idx < |fs| && k <= |fs[idx].dirs|
    decreases |fs| - idx, 0, k
  {
    if k == 0 then 0
    else
      assert idx < fs[idx].dirs[k - 1] < |fs|;
      ChildrenSize(fs, idx, k - 1) + DirSize(fs, fs[idx].dirs[k - 1])
  }

  lemma {:induction false} ChildrenSizeHolds(fs: seq<Dir>, idx: nat, k: nat, j: nat)
    requires Tree(fs) && idx < |fs| && j < k <= |fs[idx].dirs|
    ensures idx < fs[idx].dirs[j] < |fs|
    ensures DirSize(fs, fs[idx].dirs[j]) <= ChildrenSize(fs, idx, k)
    decreases k
  {
    if j < k - 1 {
      ChildrenSizeHolds(fs, idx, k - 1, j);
    }
  }

  /** A subdirectory is never larger than its parent. */
  lemma ChildAtMostParent(fs: seq<Dir>, idx: nat, j: nat)
    requires Tree(fs) && idx < |fs| && j < |fs[idx].dirs|
    ensures idx < fs[idx].dirs[j] < |fs|
    ensures DirSize(fs, fs[idx].dirs[j]) <= DirSize(fs, idx)
  {
    ChildrenSizeHolds(fs, idx, |fs[idx].dirs|, j);
  }

  /** No directory is larger than the root. */
  lemma {:induction false} AtMostRoot(fs: seq<Dir>, i: nat)
    requires Tree(fs) && i < |fs|
    ensures DirSize(fs, i) <= DirSize(fs, 0)
    decreases i
  {
    if i > 0 {
      var p := fs[i].parent.value;
      assert i in fs[p].dirs;
      var j :| 0 <= j < |fs[p].dirs| && fs[p].dirs[j] == i;
      ChildAtMostParent(fs, p, j);
      AtMostRoot(fs, p);
    }
  }

  // ---------------------------------------------------------------------
  // parse_input

  /** The terminal lines the fold tells apart, by their whitespace-separated
      words: `$ cd name`, `dir name`, a line starting with a size, and the
      rest (`$ ls` among them). */
  datatype Command = ChangeDir(name: string) | MakeDir(name: string) | AddFile(size: nat) | Skip

  function Classify(line: string): Command
  {
    var w := Words(line);
    if |w| == 3 && w[0] == "$" && w[1] == "cd" then ChangeDir(w[2])
    else if |w| == 2 && w[0] == "dir" then MakeDir(w[1])
    else if |w| >= 1 && ParseNat(w[0]).Some? then AddFile(ParseNat(w[0]).value)
    else Skip
  }

  /** The fold's accumulator: the directories and the current one. */
  datatype State = State(fs: seq<Dir>, cwd: nat)

  predicate Valid(st: State)
  {
    Tree(st.fs) && st.cwd < |st.fs|
  }

  function Initial(): (st: State)
    ensures Valid(st)
  {
    State([Dir(0, [], "/", None)], 0)
  }

  /** `find` over the subdirectories: the position in `ds` of the first
      one named `name`. */
  function FirstNamed(fs: seq<Dir>, ds: seq<nat>, name: string): (r: Option<nat>)
    requires forall k :: 0 <= k < |ds| ==> ds[k] < |fs|
    ensures r.None? <==> forall k :: 0 <= k < |ds| ==> fs[ds[k]].name != name
    ensures r.Some? ==> (r.value < |ds| && fs[ds[r.value]].name == name
      && forall j :: 0 <= j < r.value ==> fs[ds[j]].name != name)
  {
    if ds == [] then None
    else if fs[ds[0]].name == name then Some(0)
    else
      match FirstNamed(fs, ds[1..], name)
      case None => None
      case Some(k) => Some(k + 1)
  }

  /** A new empty directory `name` under `cwd`, at the next index. */
  function AddDir(fs: seq<Dir>, cwd: nat, name: string): seq<Dir>
    requires cwd < |fs|
  {
    fs[cwd := fs[cwd].(dirs := fs[cwd].dirs + [|fs|])] + [Dir(0, [], name, Some(cwd))]
  }

  /** One line of the fold; `None` where `unwrap` panics: `cd ..` at the
      root, or `cd` to a name that is not a subdirectory. */
  function Step(st: State, line: string): (r: Option<State>)
    requires Valid(st)
    ensures r.Some? ==> Valid(r.value)
  {
    Apply(st, Classify(line))
  }

  /** What one classified line does to the accumulator. */
  function Apply(st: State, c: Command): (r: Option<State>)
    requires Valid(st)
    ensures r.Some? ==> Valid(r.value)
  {
    match c
    case ChangeDir(name) => ChangeTo(st, name)
    case MakeDir(name) =>
      AddDirTree(st.fs, st.cwd, name);
      Some(State(AddDir(st.fs, st.cwd, name), st.cwd))
    case AddFile(n) =>
      AddSizeTree(st.fs, st.cwd, n);
      Some(State(AddSize(st.fs, st.cwd, n), st.cwd))
    case Skip => Some(st)
  }

  /** `$ cd name`: up to the parent, stay for "/", or down to the first
      subdirectory so named. */
  function ChangeTo(st: State, name: string): (r: Option<State>)
    requires Valid(st)
    ensures r.Some? ==> Valid(r.value) && r.value.fs == st.fs
  {
    if name == ".." then
      (match st.fs[st.cwd].parent case None => None case Some(p) => Some(State(st.fs, p)))
    else if name == "/" then Some(st)
    else
      ChildrenInRange(st.fs, st.cwd);
      match FirstNamed(st.fs, st.fs[st.cwd].dirs, name)
      case None => None
      case Some(k) => Some(State(st.fs, st.fs[st.cwd].dirs[k]))
  }

  /** `n` more bytes of files directly in `cwd`. */
  function AddSize(fs: seq<Dir>, cwd: nat, n: nat): seq<Dir>
    requires cwd < |fs|
  {
    fs[cwd := fs[cwd].(size := fs[cwd].size + n)]
  }

  lemma ChildrenInRange(fs: seq<Dir>, i: nat)
    requires Tree(fs) && i < |fs|
    ensures forall k :: 0 <= k < |fs[i].dirs| ==> i < fs[i].dirs[k] < |fs|
  {
  }

  lemma AddDirTree(fs: seq<Dir>, cwd: nat, name: string)
    requires Tree(fs) && cwd < |fs|
    ensures Tree(AddDir(fs, cwd, name))
  {
    AddDirEffect(fs, cwd, name);
    AddDirChildrenAfter(fs, cwd, name);
    AddDirParentsList(fs, cwd, name);
  }

  lemma AddDirChildrenAfter(fs: seq<Dir>, cwd: nat, name: string)
    requires Tree(fs) && cwd < |fs|
    ensures ChildrenAfter(AddDir(fs, cwd, name))
  {
    AddDirEffect(fs, cwd, name);
    var n := |fs|;
    var fs' := AddDir(fs, cwd, name);
    forall i, k | 0 <= i < |fs'| && 0 <= k < |fs'[i].dirs|
      ensures i < fs'[i].dirs[k] < |fs'| && fs'[fs'[i].dirs[k]].parent == Some(i)
    {
      if i == cwd && k == |fs[cwd].dirs| {
        assert fs'[i].dirs[k] == n;
      } else {
        assert fs'[i].dirs[k] == fs[i].dirs[k];
        assert fs'[fs[i].dirs[k]].parent == fs[fs[i].dirs[k]].parent;
      }
    }
  }

  lemma AddDirParentsList(fs: seq<Dir>, cwd: nat, name: string)
    requires Tree(fs) && cwd < |fs|
    ensures ParentsList(AddDir(fs, cwd, name))
  {
    AddDirEffect(fs, cwd, name);
    var n := |fs|;
    var fs' := AddDir(fs, cwd, name);
    forall c | 0 < c < |fs'|
      ensures fs'[c].parent.Some? && fs'[c].parent.value < c && c in fs'[fs'[c].parent.value].dirs
    {
      if c < n {
        var p := fs[c].parent.value;
        assert fs'[c].parent == fs[c].parent;
        assert c in fs[p].dirs;
        assert fs[p].dirs <= fs'[p].dirs;
      }
    }
  }

  lemma AddSizeTree(fs: seq<Dir>, cwd: nat, n: nat)
    requires Tree(fs) && cwd < |fs|
    ensures Tree(AddSize(fs, cwd, n))
  {
    var fs' := AddSize(fs, cwd, n);
    assert forall i :: 0 <= i < |fs| ==> fs'[i].dirs == fs[i].dirs && fs'[i].parent == fs[i].parent;
  }

  /** The fold over the lines, last line last; `None` once a line panics. */
  function Run(lines: seq<string>): (r: Option<State>)
    ensures r.Some? ==> Valid(r.value)
  {
    if lines == [] then Some(Initial())
    else
      match Run(lines[..|lines| - 1])
      case None => None
      case Some(st) => Step(st, Last(lines))
  }

  /** A panic on some line ends the whole fold. */
  lemma {:induction false} RunStopped(lines: seq<string>, i: nat)
    requires i <= |lines| && Run(lines[..i]).None?
    ensures Run(lines).None?
    decreases |lines| - i
  {
    if i < |lines| {
      assert lines[..i + 1][..i] == lines[..i];
      RunStopped(lines, i + 1);
    } else {
      assert lines[..i] == lines;
    }
  }

  lemma RunNext(lines: seq<string>, i: nat)
    requires i < |lines| && Run(lines[..i]).Some?
    ensures Run(lines[..i + 1]) == Apply(Run(lines[..i]).value, Classify(lines[i]))
  {
    assert lines[..i + 1][..i] == lines[..i] && Last(lines[..i + 1]) == lines[i];
  }

  /** The body of the fold's closure: `fs` and `cwd_id` updated in place
      for one classified line; `ok` is false where it panics. */
  method ApplyInPlace(fs0: seq<Dir>, cwd0: nat, c: Command) returns (ok: bool, fs: seq<Dir>, cwd: nat)
    requires Valid(State(fs0, cwd0))
    ensures Apply(State(fs0, cwd0), c) == (if ok then Some(State(fs, cwd)) else None)
  {
    fs, cwd, ok := fs0, cwd0, true;
    match c {
      case ChangeDir(name) =>
        if name == ".." {
          if fs[cwd].parent.None? {
            return false, fs, cwd;
          }
          cwd := fs[cwd].parent.value;
        } else if name != "/" {
          var k := FirstNamed(fs, fs[cwd].dirs, name);
          if k.None? {
            return false, fs, cwd;
          }
          cwd := fs[cwd].dirs[k.value];
        }
      case MakeDir(name) =>
        var idx := |fs|;
        fs := fs[cwd := fs[cwd].(dirs := fs[cwd].dirs + [idx])] + [Dir(0, [], name, Some(cwd))];
      case AddFile(n) =>
        fs := fs[cwd := fs[cwd].(size := fs[cwd].size + n)];
      case Skip =>
    }
  }

  /** `parse_input`: the fold over the lines, one step at a time. */
  method ParseInput(lines: seq<string>) returns (r: Option<seq<Dir>>)
    ensures r.None? <==> Run(lines).None?
    ensures r.Some? ==> r.value == Run(lines).value.fs && Tree(r.value)
  {
    var fs := [Dir(0, [], "/", None)];
    var cwd: nat := 0;
    for i := 0 to |lines|
      invariant Run(lines[..i]) == Some(State(fs, cwd))
    {
      RunNext(lines, i);
      var ok;
      ok, fs, cwd := ApplyInPlace(fs, cwd, Classify(lines[i]));
      if !ok {
        RunStopped(lines, i + 1);
        return None;
      }
    }
    assert lines[..|lines|] == lines;
    r := Some(fs);
  }

  // ---------------------------------------------------------------------
  // What a line does to the directories

  /** The size a line lists: that of a file line, 0 for the others. */
  function Listed(line: string): nat
  {
    Amount(Classify(line))
  }

  function Amount(c: Command): nat
  {
    match c case AddFile(n) => n case _ => 0
  }

  /** All the file sizes the transcript lists. */
  function ListedTotal(lines: seq<string>): nat
  {
    if lines == [] then 0 else ListedTotal(lines[..|lines| - 1]) + Listed(Last(lines))
  }

  /** The sizes of all directories' own files. */
  function TotalSize(fs: seq<Dir>): nat
  {
    if fs == [] then 0 else TotalSize(fs[..|fs| - 1]) + Last(fs).size
  }

  lemma {:induction false} TotalSizeUpdate(fs: seq<Dir>, i: nat, d: Dir)
    requires i < |fs|
    ensures TotalSize(fs[i := d]) + fs[i].size == TotalSize(fs) + d.size
    decreases |fs|
  {
    var fs' := fs[i := d];
    if i < |fs| - 1 {
      assert fs'[..|fs'| - 1] == fs[..|fs| - 1][i := d];
      TotalSizeUpdate(fs[..|fs| - 1], i, d);
    } else {
      assert fs'[..|fs'| - 1] == fs[..|fs| - 1];
    }
  }

  /** A line changes only the current directory: a file line adds its size
      to it, a `dir` line appends one empty directory listed under it, and a
      `cd` line leaves the directories alone. */
  lemma ApplyEffect(st: State, c: Command)
    requires Valid(st) && Apply(st, c).Some?
    ensures var fs' := Apply(st, c).value.fs;
      |fs'| == |st.fs| + (if c.MakeDir? then 1 else 0)
      && (forall i :: 0 <= i < |st.fs| && i != st.cwd ==> fs'[i] == st.fs[i])
      && fs'[st.cwd].name == st.fs[st.cwd].name && fs'[st.cwd].parent == st.fs[st.cwd].parent
      && fs'[st.cwd].size == st.fs[st.cwd].size + Amount(c)
      && fs'[st.cwd].dirs == st.fs[st.cwd].dirs + (if c.MakeDir? then [|st.fs|] else [])
  {
    match c
    case ChangeDir(name) =>
      assert Apply(st, c) == ChangeTo(st, name);
    case MakeDir(name) =>
      assert Apply(st, c).value.fs == AddDir(st.fs, st.cwd, name);
      AddDirEffect(st.fs, st.cwd, name);
    case AddFile(n) =>
      assert Apply(st, c).value.fs == AddSize(st.fs, st.cwd, n);
      AddSizeEffect(st.fs, st.cwd, n);
    case Skip =>
  }

  lemma AddDirEffect(fs: seq<Dir>, cwd: nat, name: string)
    requires cwd < |fs|
    ensures var fs' := AddDir(fs, cwd, name);
      |fs'| == |fs| + 1
      && (forall i :: 0 <= i < |fs| && i != cwd ==> fs'[i] == fs[i])
      && fs'[cwd] == fs[cwd].(dirs := fs[cwd].dirs + [|fs|])
      && fs'[|fs|] == Dir(0, [], name, Some(cwd))
  {
  }

  lemma AddSizeEffect(fs: seq<Dir>, cwd: nat, n: nat)
    requires cwd < |fs|
    ensures var fs' := AddSize(fs, cwd, n);
      |fs'| == |fs| && (forall i :: 0 <= i < |fs| && i != cwd ==> fs'[i] == fs[i])
      && fs'[cwd] == fs[cwd].(size := fs[cwd].size + n)
      && (forall i :: 0 <= i < |fs| ==> fs'[i].dirs == fs[i].dirs)
  {
  }

  lemma AddDirTotal(fs: seq<Dir>, cwd: nat, name: string)
    requires cwd < |fs|
    ensures TotalSize(AddDir(fs, cwd, name)) == TotalSize(fs)
  {
    var grown := fs[cwd := fs[cwd].(dirs := fs[cwd].dirs + [|fs|])];
    TotalSizeUpdate(fs, cwd, grown[cwd]);
    var fs' := AddDir(fs, cwd, name);
    assert fs'[..|fs'| - 1] == grown;
  }

  /** A line adds exactly the size it lists to the directories' total. */
  lemma ApplyTotal(st: State, c: Command)
    requires Valid(st) && Apply(st, c).Some?
    ensures TotalSize(Apply(st, c).value.fs) == TotalSize(st.fs) + Amount(c)
  {
    match c
    case ChangeDir(name) =>
      assert Apply(st, c) == ChangeTo(st, name);
    case MakeDir(name) =>
      assert Apply(st, c).value.fs == AddDir(st.fs, st.cwd, name);
      AddDirTotal(st.fs, st.cwd, name);
    case AddFile(n) =>
      assert Apply(st, c).value.fs == AddSize(st.fs, st.cwd, n);
      AddSizeTotal(st.fs, st.cwd, n);
    case Skip =>
  }

  lemma AddSizeTotal(fs: seq<Dir>, cwd: nat, n: nat)
    requires cwd < |fs|
    ensures TotalSize(AddSize(fs, cwd, n)) == TotalSize(fs) + n
  {
    TotalSizeUpdate(fs, cwd, fs[cwd].(size := fs[cwd].size + n));
  }

  /** The directories' own sizes add up to the file sizes the transcript
      lists: every file line is counted once, in one directory. */
  lemma {:induction false} RunTotal(lines: seq<string>)
    requires Run(lines).Some?
    ensures TotalSize(Run(lines).value.fs) == ListedTotal(lines)
    decreases |lines|
  {
    if lines != [] {
      var init := lines[..|lines| - 1];
      RunTotal(init);
      ApplyTotal(Run(init).value, Classify(Last(lines)));
    }
  }

  // ---------------------------------------------------------------------
  // The root holds every file

  /** The subdirectory lists alone. */
  function Links(fs: seq<Dir>): (ls: seq<seq<nat>>)
    ensures |ls| == |fs| && forall i :: 0 <= i < |fs| ==> ls[i] == fs[i].dirs
  {
    seq(|fs|, i requires 0 <= i < |fs| => fs[i].dirs)
  }

  /** Every listed subdirectory comes after its parent. */
  predicate Downward(ls: seq<seq<nat>>)
  {
    forall i, k :: 0 <= i < |ls| && 0 <= k < |ls[i]| ==> i < ls[i][k] < |ls|
  }

  /** The number of ways down from `i` to `t` through the lists. */
  function Paths(ls: seq<seq<nat>>, i: nat, t: nat): nat
    requires Downward(ls) && i < |ls|
    decreases |ls| - i, 1
  {
    (if i == t then 1 else 0) + PathsBelow(ls, i, t, |ls[i]|)
  }

  /** The ways down from `i` to `t` through its first `k` subdirectories. */
  function PathsBelow(ls: seq<seq<nat>>, i: nat, t: nat, k: nat): nat
    requires Downward(ls) && i < |ls| && k <= |ls[i]|
    decreases |ls| - i, 0, k
  {
    if k == 0 then 0 else PathsBelow(ls, i, t, k - 1) + Paths(ls, ls[i][k - 1], t)
  }

  /** Every directory is reached from the root in exactly one way. */
  predicate Rooted(fs: seq<Dir>)
    requires Tree(fs)
  {
    forall t :: 0 <= t < |fs| ==> Paths(Links(fs), 0, t) == 1
  }

  /** The lists after a new directory under `cwd`. */
  function Grow(ls: seq<seq<nat>>, cwd: nat): seq<seq<nat>>
    requires cwd < |ls|
  {
    ls[cwd := ls[cwd] + [|ls|]] + [[]]
  }

  lemma GrowDownward(ls: seq<seq<nat>>, cwd: nat)
    requires Downward(ls) && cwd < |ls|
    ensures Downward(Grow(ls, cwd))
    ensures forall i :: 0 <= i < |ls| && i != cwd ==> Grow(ls, cwd)[i] == ls[i]
    ensures Grow(ls, cwd)[cwd] == ls[cwd] + [|ls|] && Grow(ls, cwd)[|ls|] == []
  {
    var g := Grow(ls, cwd);
    forall i, k | 0 <= i < |g| && 0 <= k < |g[i]|
      ensures i < g[i][k] < |g|
    {
      if i == cwd && k == |ls[cwd]| {
        assert g[i][k] == |ls|;
      } else {
        assert g[i][k] == ls[i][k];
      }
    }
  }

  /** A new directory adds ways down to itself, as many as to its parent,
      and no way down to any other directory. */
  lemma {:induction false} GrowPaths(ls: seq<seq<nat>>, cwd: nat, i: nat, t: nat)
    requires Downward(ls) && cwd < |ls| && i < |ls| && t < |ls|
    ensures Downward(Grow(ls, cwd))
    ensures Paths(Grow(ls, cwd), i, t) == Paths(ls, i, t)
    ensures Paths(Grow(ls, cwd), i, |ls|) == Paths(ls, i, cwd)
    decreases |ls| - i, 1
  {
    GrowDownward(ls, cwd);
    var g := Grow(ls, cwd);
    var m := |ls[i]|;
    GrowPathsBelow(ls, cwd, i, t, m);
    if i == cwd {
      var n := |ls|;
      assert g[i][m] == n;
      assert PathsBelow(g, n, t, 0) == 0 && PathsBelow(g, n, n, 0) == 0;
      assert Paths(g, n, t) == 0 && Paths(g, n, n) == 1;
      assert PathsBelow(g, i, t, m + 1) == PathsBelow(g, i, t, m) + Paths(g, n, t);
      assert PathsBelow(g, i, n, m + 1) == PathsBelow(g, i, n, m) + Paths(g, n, n);
    }
  }

  lemma {:induction false} GrowPathsBelow(ls: seq<seq<nat>>, cwd: nat, i: nat, t: nat, k: nat)
    requires Downward(ls) && cwd < |ls| && i < |ls| && t < |ls| && k <= |ls[i]|
    ensures Downward(Grow(ls, cwd)) && k <= |Grow(ls, cwd)[i]|
    ensures PathsBelow(Grow(ls, cwd), i, t, k) == PathsBelow(ls, i, t, k)
    ensures PathsBelow(Grow(ls, cwd), i, |ls|, k) == PathsBelow(ls, i, cwd, k)
    decreases |ls| - i, 0, k
  {
    GrowDownward(ls, cwd);
    if k > 0 {
      GrowPathsBelow(ls, cwd, i, t, k - 1);
      GrowPaths(ls, cwd, ls[i][k - 1], t);
    }
  }

  lemma TreeDownward(fs: seq<Dir>)
    requires Tree(fs)
    ensures Downward(Links(fs))
  {
  }

  lemma AddDirLinks(fs: seq<Dir>, cwd: nat, name: string)
    requires cwd < |fs|
    ensures Links(AddDir(fs, cwd, name)) == Grow(Links(fs), cwd)
  {
    AddDirEffect(fs, cwd, name);
  }

  /** A new directory keeps every directory reached from the root in
      exactly one way. */
  lemma AddDirRooted(fs: seq<Dir>, cwd: nat, name: string)
    requires Tree(fs) && cwd < |fs| && Rooted(fs)
    ensures Tree(AddDir(fs, cwd, name)) && Rooted(AddDir(fs, cwd, name))
  {
    AddDirTree(fs, cwd, name);
    AddDirLinks(fs, cwd, name);
    TreeDownward(fs);
    var ls := Links(fs);
    forall t | 0 <= t < |fs| + 1
      ensures Paths(Grow(ls, cwd), 0, t) == 1
    {
      GrowPaths(ls, cwd, 0, if t < |fs| then t else cwd);
    }
  }

  /** A new directory is empty and changes no directory's size. */
  lemma {:induction false} AddDirSize(fs: seq<Dir>, cwd: nat, name: string, i: nat)
    requires Tree(fs) && cwd < |fs| && i < |fs|
    ensures Tree(AddDir(fs, cwd, name))
    ensures DirSize(AddDir(fs, cwd, name), i) == DirSize(fs, i)
    decreases |fs| - i, 1
  {
    AddDirTree(fs, cwd, name);
    AddDirEffect(fs, cwd, name);
    var fs' := AddDir(fs, cwd, name);
    var m := |fs[i].dirs|;
    AddDirChildrenSize(fs, cwd, name, i, m);
    assert fs'[i].size == fs[i].size;
    if i == cwd {
      var n := |fs|;
      assert fs'[i].dirs[m] == n;
      assert ChildrenSize(fs', n, 0) == 0;
      assert DirSize(fs', n) == 0;
      assert ChildrenSize(fs', i, m + 1) == ChildrenSize(fs', i, m) + DirSize(fs', n);
      assert DirSize(fs', i) == fs'[i].size + ChildrenSize(fs', i, m + 1);
    } else {
      assert fs'[i].dirs == fs[i].dirs;
      assert DirSize(fs', i) == fs'[i].size + ChildrenSize(fs', i, m);
    }
  }

  lemma {:induction false} AddDirChildrenSize(fs: seq<Dir>, cwd: nat, name: string, i: nat, k: nat)
    requires Tree(fs) && cwd < |fs| && i < |fs| && k <= |fs[i].dirs|
    ensures Tree(AddDir(fs, cwd, name)) && k <= |AddDir(fs, cwd, name)[i].dirs|
    ensures ChildrenSize(AddDir(fs, cwd, name), i, k) == ChildrenSize(fs, i, k)
    decreases |fs| - i, 0, k
  {
    AddDirTree(fs, cwd, name);
    AddDirEffect(fs, cwd, name);
    if k > 0 {
      AddDirChildrenSize(fs, cwd, name, i, k - 1);
      AddDirSize(fs, cwd, name, fs[i].dirs[k - 1]);
    }
  }

  /** `n` added `p` times. */
  function Repeat(n: nat, p: nat): nat
  {
    if p == 0 then 0 else Repeat(n, p - 1) + n
  }

  lemma {:induction false} RepeatAdd(n: nat, a: nat, b: nat)
    ensures Repeat(n, a + b) == Repeat(n, a) + Repeat(n, b)
    decreases b
  {
    if b > 0 {
      RepeatAdd(n, a, b - 1);
    }
  }

  lemma AddUp(n: nat, a: nat, b: nat, p: nat, x: nat, y: nat, x': nat, y': nat)
    requires x' == x + Repeat(n, a) && y' == y + Repeat(n, b) && p == a + b
    ensures x' + y' == x + y + Repeat(n, p)
  {
    RepeatAdd(n, a, b);
  }

  /** A file adds its size to every directory above it, once per way down. */
  lemma {:induction false} AddSizeSize(fs: seq<Dir>, cwd: nat, n: nat, i: nat)
    requires Tree(fs) && cwd < |fs| && i < |fs|
    ensures Tree(AddSize(fs, cwd, n)) && Downward(Links(fs))
    ensures DirSize(AddSize(fs, cwd, n), i) == DirSize(fs, i) + Repeat(n, Paths(Links(fs), i, cwd))
    decreases |fs| - i, 1
  {
    AddSizeTree(fs, cwd, n);
    AddSizeEffect(fs, cwd, n);
    TreeDownward(fs);
    var fs' := AddSize(fs, cwd, n);
    var ls := Links(fs);
    var m := |fs[i].dirs|;
    var own := if i == cwd then 1 else 0;
    assert Repeat(n, 1) == n;
    assert fs'[i].size == fs[i].size + Repeat(n, own);
    assert fs'[i].dirs == fs[i].dirs;
    AddSizeChildrenSize(fs, cwd, n, i, m);
    assert Paths(ls, i, cwd) == own + PathsBelow(ls, i, cwd, m);
    AddUp(n, own, PathsBelow(ls, i, cwd, m), Paths(ls, i, cwd),
      fs[i].size, ChildrenSize(fs, i, m), fs'[i].size, ChildrenSize(fs', i, m));
  }

  lemma {:induction false} AddSizeChildrenSize(fs: seq<Dir>, cwd: nat, n: nat, i: nat, k: nat)
    requires Tree(fs) && cwd < |fs| && i < |fs| && k <= |fs[i].dirs|
    ensures Tree(AddSize(fs, cwd, n)) && Downward(Links(fs)) && k <= |AddSize(fs, cwd, n)[i].dirs|
    ensures ChildrenSize(AddSize(fs, cwd, n), i, k)
      == ChildrenSize(fs, i, k) + Repeat(n, PathsBelow(Links(fs), i, cwd, k))
    decreases |fs| - i, 0, k
  {
    AddSizeTree(fs, cwd, n);
    AddSizeEffect(fs, cwd, n);
    TreeDownward(fs);
    var fs' := AddSize(fs, cwd, n);
    assert fs'[i].dirs == fs[i].dirs;
    if k > 0 {
      var ls := Links(fs);
      var c := fs[i].dirs[k - 1];
      assert ls[i][k - 1] == c;
      AddSizeChildrenSize(fs, cwd, n, i, k - 1);
      AddSizeSize(fs, cwd, n, c);
      assert ChildrenSize(fs', i, k) == ChildrenSize(fs', i, k - 1) + DirSize(fs', c);
      assert ChildrenSize(fs, i, k) == ChildrenSize(fs, i, k - 1) + DirSize(fs, c);
      assert PathsBelow(ls, i, cwd, k) == PathsBelow(ls, i, cwd, k - 1) + Paths(ls, c, cwd);
      AddUp(n, PathsBelow(ls, i, cwd, k - 1), Paths(ls, c, cwd), PathsBelow(ls, i, cwd, k),
        ChildrenSize(fs, i, k - 1), DirSize(fs, c), ChildrenSize(fs', i, k - 1), DirSize(fs', c));
    }
  }

  /** The fold's invariant: every directory hangs below the root in one
      way, and the root's size is the sum of all directories' own files. */
  predicate Whole(fs: seq<Dir>)
    requires Tree(fs)
  {
    Rooted(fs) && DirSize(fs, 0) == TotalSize(fs)
  }

  lemma AddDirWhole(fs: seq<Dir>, cwd: nat, name: string)
    requires Tree(fs) && cwd < |fs| && Whole(fs)
    ensures Tree(AddDir(fs, cwd, name)) && Whole(AddDir(fs, cwd, name))
  {
    AddDirRooted(fs, cwd, name);
    AddDirSize(fs, cwd, name, 0);
    AddDirTotal(fs, cwd, name);
  }

  lemma AddSizeWhole(fs: seq<Dir>, cwd: nat, n: nat)
    requires Tree(fs) && cwd < |fs| && Whole(fs)
    ensures Tree(AddSize(fs, cwd, n)) && Whole(AddSize(fs, cwd, n))
  {
    var fs' := AddSize(fs, cwd, n);
    AddSizeSize(fs, cwd, n, 0);
    assert Repeat(n, 1) == n;
    AddSizeTotal(fs, cwd, n);
    AddSizeEffect(fs, cwd, n);
    assert Links(fs') == Links(fs);
  }

  lemma ApplyWhole(st: State, c: Command)
    requires Valid(st) && Whole(st.fs) && Apply(st, c).Some?
    ensures Whole(Apply(st, c).value.fs)
  {
    match c
    case ChangeDir(name) =>
      assert Apply(st, c) == ChangeTo(st, name);
    case MakeDir(name) =>
      assert Apply(st, c).value.fs == AddDir(st.fs, st.cwd, name);
      AddDirWhole(st.fs, st.cwd, name);
    case AddFile(n) =>
      assert Apply(st, c).value.fs == AddSize(st.fs, st.cwd, n);
      AddSizeWhole(st.fs, st.cwd, n);
    case Skip =>
  }

  lemma {:induction false} RunWhole(lines: seq<string>)
    requires Run(lines).Some?
    ensures Whole(Run(lines).value.fs)
    decreases |lines|
  {
    if lines == [] {
      var fs := Initial().fs;
      assert PathsBelow(Links(fs), 0, 0, 0) == 0;
      assert Paths(Links(fs), 0, 0) == 1;
    } else {
      var init := lines[..|lines| - 1];
      RunWhole(init);
      ApplyWhole(Run(init).value, Classify(Last(lines)));
    }
  }

  /** The root's size, the used space of part two, is the sum of every file
      size the transcript lists. */
  lemma RootHoldsAll(lines: seq<string>)
    requires Run(lines).Some?
    ensures DirSize(Run(lines).value.fs, 0) == ListedTotal(lines)
  {
    RunWhole(lines);
    RunTotal(lines);
  }

  /** `cd ..` goes to the parent and fails at the root; `cd /` stays where
      it is; `cd name` goes to the first subdirectory with that name and
      fails when there is none. */
  lemma ChangeDirTarget(st: State, name: string)
    requires Valid(st)
    ensures var r := ChangeTo(st, name);
      (r.Some? ==> r.value.fs == st.fs)
      && (name == ".." ==> ((r.None? <==> st.cwd == 0)
          && (st.cwd > 0 ==> r.value.cwd == st.fs[st.cwd].parent.value)))
      && (name == "/" ==> r == Some(st))
      && (name != ".." && name != "/" ==>
          (r.None? <==> forall k :: 0 <= k < |st.fs[st.cwd].dirs| ==> st.fs[st.fs[st.cwd].dirs[k]].name != name)
          && (r.Some? ==> exists k :: (0 <= k < |st.fs[st.cwd].dirs| && r.value.cwd == st.fs[st.cwd].dirs[k]
                && st.fs[r.value.cwd].name == name && st.fs[r.value.cwd].parent == Some(st.cwd)
                && forall j :: 0 <= j < k ==> st.fs[st.fs[st.cwd].dirs[j]].name != name)))
  {
    var fs, cwd := st.fs, st.cwd;
    if name == ".." && cwd > 0 {
      assert fs[cwd].parent.Some?;
    }
    if name != ".." && name != "/" {
      var r := FirstNamed(fs, fs[cwd].dirs, name);
      if r.Some? {
        assert fs[fs[cwd].dirs[r.value]].parent == Some(cwd);
      }
    }
  }

  // ---------------------------------------------------------------------
  // The two parts

  /** Every directory's total size, by index. */
  function Sizes(fs: seq<Dir>): (r: seq<nat>)
    requires Tree(fs)
    ensures |r| == |fs| && forall i :: 0 <= i < |fs| ==> r[i] == DirSize(fs, i)
  {
    seq(|fs|, i requires 0 <= i < |fs| => DirSize(fs, i))
  }

  /** The sum of the values of at most 100_000. */
  function SmallTotal(s: seq<nat>): nat
  {
    if s == [] then 0 else SmallTotal(s[..|s| - 1]) + (if Last(s) <= 100000 then Last(s) else 0)
  }

  /** `solve_part_one`. */
  function PartOne(fs: seq<Dir>): nat
    requires Tree(fs)
  {
    SmallTotal(Sizes(fs))
  }

  /** Every value of at most 100_000 is counted, and nothing else is: the
      total lies between any one of them and 100_000 per value. */
  lemma {:induction false} SmallTotalBounds(s: seq<nat>, i: nat)
    requires i < |s|
    ensures s[i] <= 100000 ==> s[i] <= SmallTotal(s)
    ensures SmallTotal(s) <= 100000 * |s|
    decreases |s|
  {
    var init := s[..|s| - 1];
    if i < |s| - 1 {
      assert init[i] == s[i];
      SmallTotalBounds(init, i);
    } else if init != [] {
      SmallTotalBounds(init, 0);
    }
  }

  /** Nested small directories are each counted: a directory of at most
      100_000 and a small subdirectory of it both contribute their sizes. */
  lemma {:induction false} SmallTotalPair(s: seq<nat>, i: nat, j: nat)
    requires i < j < |s| && s[i] <= 100000 && s[j] <= 100000
    ensures s[i] + s[j] <= SmallTotal(s)
    decreases |s|
  {
    var init := s[..|s| - 1];
    assert init[i] == s[i];
    if j < |s| - 1 {
      assert init[j] == s[j];
      SmallTotalPair(init, i, j);
    } else {
      SmallTotalBounds(init, i);
    }
  }

  /** Part one counts each small directory's size, and a small directory
      inside another small one is counted again in its parent. */
  lemma PartOneCounts(fs: seq<Dir>, i: nat, k: nat)
    requires Tree(fs) && i < |fs| && k < |fs[i].dirs|
    requires DirSize(fs, i) <= 100000
    ensures DirSize(fs, i) <= PartOne(fs) <= 100000 * |fs|
    ensures DirSize(fs, i) + DirSize(fs, fs[i].dirs[k]) <= PartOne(fs)
  {
    var s := Sizes(fs);
    var c := fs[i].dirs[k];
    ChildAtMostParent(fs, i, k);
    SmallTotalBounds(s, i);
    SmallTotalPair(s, i, c);
  }

  /** `.filter(|&size| size >= need).min()`: the least value of at least `need`. */
  function LeastAtLeast(s: seq<nat>, need: int): (r: Option<nat>)
    ensures r.None? <==> forall i :: 0 <= i < |s| ==> s[i] < need
    ensures r.Some? ==> (r.value >= need && r.value in s
      && forall i :: 0 <= i < |s| && s[i] >= need ==> r.value <= s[i])
  {
    if s == [] then None
    else
      var r := LeastAtLeast(s[..|s| - 1], need);
      var x := Last(s);
      if x >= need && (r.None? || x < r.value) then Some(x) else r
  }

  const DiskSize: nat := 70000000
  const NeededFree: nat := 30000000

  /** `solve_part_two`: the smallest directory whose removal leaves 30M of
      the 70M free; `None` where the usize subtractions underflow or `min`
      finds nothing (both panic). */
  function PartTwo(fs: seq<Dir>): Option<nat>
    requires Tree(fs)
  {
    var used := DirSize(fs, 0);
    if used > DiskSize || DiskSize - used > NeededFree then None
    else LeastAtLeast(Sizes(fs), NeededFree - (DiskSize - used))
  }

  /** Part two answers exactly when the used space lies in [40M, 70M]; the
      answer is the size of a directory, the least one that frees enough,
      and never more than the root. */
  lemma PartTwoAnswer(fs: seq<Dir>)
    requires Tree(fs)
    ensures var used := DirSize(fs, 0);
      (PartTwo(fs).Some? <==> DiskSize - NeededFree <= used <= DiskSize)
      && (PartTwo(fs).Some? ==>
        var r := PartTwo(fs).value;
        used - (DiskSize - NeededFree) <= r <= used
        && r in Sizes(fs)
        && forall i :: 0 <= i < |fs| && DirSize(fs, i) >= used - (DiskSize - NeededFree) ==> r <= DirSize(fs, i))
  {
    var used := DirSize(fs, 0);
    var s := Sizes(fs);
    if DiskSize - NeededFree <= used <= DiskSize {
      assert s[0] == used;
      var r := PartTwo(fs).value;
      var i :| 0 <= i < |s| && s[i] == r;
      AtMostRoot(fs, i);
    }
  }
}
