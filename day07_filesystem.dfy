/**
 * Day 7: a directory tree rebuilt from a shell transcript (`$ cd`, `$ ls` and
 * its listing), the recursive size of a directory, the stack-based collection
 * of every directory, and the two selections over their sizes.
 *
 * Directories are objects that point at their parent and hold their children.
 * Here they live in an arena: directory `i` is `nodes[i]`, the root is
 * `nodes[0]`, and a subdirectory entry holds the index of its directory.
 */
module DirectoryTree {
  import opened Wrappers
  import Text
  import Sorting

  const TotalDiskSpace: int := 70000000
  const RequiredFreeDiskSpace: int := 30000000
  /** Part one's bound on the size of a counted directory. */
  const SmallDirectoryLimit: int := 100000

  /** A child of a directory: a file with its path and size, or a subdirectory by index. */
  datatype Child = FileChild(path: string, size: nat) | DirChild(index: nat)

  /** A directory: its path (ending in `/`), its parent (none for the root) and its children in order. */
  datatype Directory = Directory(path: string, parent: Option<nat>, children: seq<Child>)

  /** Every subdirectory entry refers to a later directory of the arena. */
  predicate Ordered(nodes: seq<Directory>) {
    forall i, k :: 0 <= i < |nodes| && 0 <= k < |nodes[i].children| && nodes[i].children[k].DirChild? ==>
      i < nodes[i].children[k].index < |nodes|
  }

  /** Every parent link refers to an earlier directory. */
  predicate ParentsBefore(nodes: seq<Directory>) {
    forall j :: 0 <= j < |nodes| && nodes[j].parent.Some? ==> nodes[j].parent.value < j
  }

  /**
   * The arena is a tree rooted at directory 0: every other directory has an
   * earlier parent, and appears exactly once among that parent's children and
   * under no other directory.
   */
  ghost predicate WellFormed(nodes: seq<Directory>) {
    && |nodes| >= 1 && nodes[0].parent.None?
    && Ordered(nodes) && ParentsBefore(nodes)
    && (forall j :: 0 < j < |nodes| ==> nodes[j].parent.Some?)
    && (forall i, k :: 0 <= i < |nodes| && 0 <= k < |nodes[i].children| && nodes[i].children[k].DirChild? ==>
          ParentLinked(nodes, i, nodes[i].children[k].index))
    && (forall j :: 0 < j < |nodes| ==> ParentEntries(nodes, j) == 1)
  }

  /** Directory `c` names `i` as its parent. */
  predicate ParentLinked(nodes: seq<Directory>, i: nat, c: nat) {
    c < |nodes| && nodes[c].parent == Some(i)
  }

  /** How many times directory `j` is listed among its parent's children. */
  function ParentEntries(nodes: seq<Directory>, j: nat): nat {
    if j < |nodes| && nodes[j].parent.Some? && nodes[j].parent.value < |nodes|
    then multiset(nodes[nodes[j].parent.value].children)[DirChild(j)]
    else 0
  }

  // ---------------------------------------------------------------------
  // Sizes.

  /** `size`: the sizes of the directory's files plus the sizes of its subdirectories. */
  function Size(nodes: seq<Directory>, i: nat): nat
    requires Ordered(nodes) && i < |nodes|
    decreases |nodes| - i, 1
  {
    ChildrenSize(nodes, i, |nodes[i].children|)
  }

  /** The sizes of the first `k` children of directory `i`. */
  function ChildrenSize(nodes: seq<Directory>, i: nat, k: nat): nat
    requires Ordered(nodes) && i < |nodes| && k <= |nodes[i].children|
    decreases |nodes| - i, 0, k
  {
    if k == 0 then 0
    else
      ChildrenSize(nodes, i, k - 1) +
      match nodes[i].children[k - 1]
      case FileChild(_, s) => s
      case DirChild(c) => Size(nodes, c)
  }

  lemma {:induction false} ChildrenSizeBound(nodes: seq<Directory>, i: nat, k: nat, m: nat)
    requires Ordered(nodes) && i < |nodes| && k < m <= |nodes[i].children|
    requires nodes[i].children[k].DirChild?
    ensures Size(nodes, nodes[i].children[k].index) <= ChildrenSize(nodes, i, m)
    decreases m
  {
    if m > k + 1 {
      ChildrenSizeBound(nodes, i, k, m - 1);
    }
  }

  /** A subdirectory is never larger than its parent. */
  lemma ChildSizeBound(nodes: seq<Directory>, i: nat, k: nat)
    requires Ordered(nodes) && i < |nodes| && k < |nodes[i].children|
    requires nodes[i].children[k].DirChild?
    ensures Size(nodes, nodes[i].children[k].index) <= Size(nodes, i)
  {
    ChildrenSizeBound(nodes, i, k, |nodes[i].children|);
  }

  /** A directory is never larger than its parent. */
  lemma ParentSizeBound(nodes: seq<Directory>, j: nat)
    requires WellFormed(nodes) && 0 < j < |nodes|
    ensures Size(nodes, j) <= Size(nodes, nodes[j].parent.value)
  {
    var p := nodes[j].parent.value;
    assert ParentEntries(nodes, j) == 1;
    var k :| 0 <= k < |nodes[p].children| && nodes[p].children[k] == DirChild(j) by {
      assert DirChild(j) in multiset(nodes[p].children);
    }
    ChildSizeBound(nodes, p, k);
  }

  /** The root is the largest directory. */
  lemma {:induction false} RootIsLargest(nodes: seq<Directory>, j: nat)
    requires WellFormed(nodes) && j < |nodes|
    ensures Size(nodes, j) <= Size(nodes, 0)
    decreases j
  {
    if j > 0 {
      ParentSizeBound(nodes, j);
      RootIsLargest(nodes, nodes[j].parent.value);
    }
  }

  // ---------------------------------------------------------------------
  // Subtrees.

  /** The directories of the subtree rooted at `i`, with their multiplicity. */
  ghost function SubtreeMs(nodes: seq<Directory>, i: nat): (r: multiset<nat>)
    requires Ordered(nodes) && i < |nodes|
    ensures i in r
    ensures forall x :: x in r ==> i <= x < |nodes|
    decreases |nodes| - i, 1
  {
    multiset{i} + ChildrenMs(nodes, i, |nodes[i].children|)
  }

  /** The subtrees of the first `k` subdirectories of `i`. */
  ghost function ChildrenMs(nodes: seq<Directory>, i: nat, k: nat): (r: multiset<nat>)
    requires Ordered(nodes) && i < |nodes| && k <= |nodes[i].children|
    ensures forall x :: x in r ==> i < x < |nodes|
    decreases |nodes| - i, 0, k
  {
    if k == 0 then multiset{}
    else
      ChildrenMs(nodes, i, k - 1) +
      match nodes[i].children[k - 1]
      case FileChild(_, _) => multiset{}
      case DirChild(c) => SubtreeMs(nodes, c)
  }

  /** `i` is `j` or one of its ancestors. */
  ghost predicate Ancestor(nodes: seq<Directory>, i: nat, j: nat)
    requires ParentsBefore(nodes) && j < |nodes|
    decreases j
  {
    i == j || (nodes[j].parent.Some? && Ancestor(nodes, i, nodes[j].parent.value))
  }

  lemma {:induction false} AncestorBefore(nodes: seq<Directory>, i: nat, j: nat)
    requires ParentsBefore(nodes) && j < |nodes| && Ancestor(nodes, i, j)
    ensures i <= j
    decreases j
  {
    if i != j {
      AncestorBefore(nodes, i, nodes[j].parent.value);
    }
  }

  lemma {:induction false} AncestorTransitive(nodes: seq<Directory>, i: nat, c: nat, j: nat)
    requires ParentsBefore(nodes) && c < |nodes| && j < |nodes|
    requires Ancestor(nodes, i, c) && Ancestor(nodes, c, j)
    ensures Ancestor(nodes, i, j)
    decreases j
  {
    if c != j {
      AncestorTransitive(nodes, i, c, nodes[j].parent.value);
    }
  }

  /** Two children of the same directory on the way up from `j` are the same child. */
  lemma {:induction false} AncestorChildUnique(nodes: seq<Directory>, i: nat, c1: nat, c2: nat, j: nat)
    requires ParentsBefore(nodes) && c1 < |nodes| && c2 < |nodes| && j < |nodes|
    requires nodes[c1].parent == Some(i) && nodes[c2].parent == Some(i)
    requires Ancestor(nodes, c1, j) && Ancestor(nodes, c2, j)
    ensures c1 == c2
    decreases j
  {
    if c1 == j && c2 != j {
      AncestorBefore(nodes, c2, i);
    } else if c2 == j && c1 != j {
      AncestorBefore(nodes, c1, i);
    } else if c1 != j {
      AncestorChildUnique(nodes, i, c1, c2, nodes[j].parent.value);
    }
  }

  /** The child of `i` on the way up from its descendant `j`. */
  ghost function Via(nodes: seq<Directory>, i: nat, j: nat): (c: nat)
    requires ParentsBefore(nodes) && j < |nodes| && Ancestor(nodes, i, j) && i != j
    ensures c < |nodes| && nodes[c].parent == Some(i) && Ancestor(nodes, c, j)
    decreases j
  {
    if nodes[j].parent == Some(i) then j else Via(nodes, i, nodes[j].parent.value)
  }

  /** Below `i`, directory `j` is counted once if `i` is its ancestor and never otherwise. */
  lemma {:induction false} SubtreeCount(nodes: seq<Directory>, i: nat, j: nat)
    requires WellFormed(nodes) && i < |nodes| && j < |nodes|
    ensures SubtreeMs(nodes, i)[j] == if Ancestor(nodes, i, j) then 1 else 0
    decreases |nodes| - i, 1
  {
    var m := |nodes[i].children|;
    ChildrenCount(nodes, i, m, j);
    assert nodes[i].children[..m] == nodes[i].children;
    if i != j && Ancestor(nodes, i, j) {
      var v := Via(nodes, i, j);
      assert 0 < v < |nodes| && nodes[v].parent.value == i;
      assert ParentEntries(nodes, v) == 1;
    }
  }

  lemma {:induction false} ChildrenCount(nodes: seq<Directory>, i: nat, k: nat, j: nat)
    requires WellFormed(nodes) && i < |nodes| && j < |nodes| && k <= |nodes[i].children|
    ensures ChildrenMs(nodes, i, k)[j] ==
      if i != j && Ancestor(nodes, i, j) then multiset(nodes[i].children[..k])[DirChild(Via(nodes, i, j))] else 0
    decreases |nodes| - i, 0, k
  {
    var children := nodes[i].children;
    if k > 0 {
      ChildrenCount(nodes, i, k - 1, j);
      var child := children[k - 1];
      ChildrenMsStep(nodes, i, k - 1);
      PrefixMultiset(children, k);
      if child.DirChild? {
        assert ParentLinked(nodes, i, child.index) && i < child.index;
        DirChildCount(nodes, i, child.index, j);
      }
    }
  }

  /** The first `k` children are the first `k - 1` and child `k - 1`. */
  lemma PrefixMultiset(children: seq<Child>, k: nat)
    requires 0 < k <= |children|
    ensures multiset(children[..k]) == multiset(children[..k - 1]) + multiset{children[k - 1]}
  {
    assert children[..k] == children[..k - 1] + [children[k - 1]];
  }

  /** The subtree of child `c` of `i` holds `j` once exactly when `c` is the child of `i` on the way up from `j`. */
  lemma DirChildCount(nodes: seq<Directory>, i: nat, c: nat, j: nat)
    requires WellFormed(nodes) && i < c < |nodes| && j < |nodes| && nodes[c].parent == Some(i)
    ensures SubtreeMs(nodes, c)[j] == if i != j && Ancestor(nodes, i, j) && Via(nodes, i, j) == c then 1 else 0
    decreases |nodes| - i, 0, 0
  {
    SubtreeCount(nodes, c, j);
    if Ancestor(nodes, c, j) {
      AncestorTransitive(nodes, i, c, j);
      AncestorBefore(nodes, c, j);
      AncestorChildUnique(nodes, i, c, Via(nodes, i, j), j);
    } else if i != j && Ancestor(nodes, i, j) {
      assert c != Via(nodes, i, j);
    }
  }

  lemma {:induction false} RootIsAncestor(nodes: seq<Directory>, j: nat)
    requires WellFormed(nodes) && j < |nodes|
    ensures Ancestor(nodes, 0, j)
    decreases j
  {
    if j > 0 {
      RootIsAncestor(nodes, nodes[j].parent.value);
    }
  }

  /** The subtree of the root holds every directory of a well-formed tree exactly once. */
  lemma EveryDirectoryOnce(nodes: seq<Directory>)
    requires WellFormed(nodes)
    ensures forall j :: 0 <= j < |nodes| ==> SubtreeMs(nodes, 0)[j] == 1
    ensures forall j :: j in SubtreeMs(nodes, 0) ==> j < |nodes|
  {
    forall j | 0 <= j < |nodes|
      ensures SubtreeMs(nodes, 0)[j] == 1
    {
      SubtreeCount(nodes, 0, j);
      RootIsAncestor(nodes, j);
    }
  }

  /** The subtrees of the directories on a stack, bottom first. */
  ghost function StackMs(nodes: seq<Directory>, stack: seq<nat>): multiset<nat>
    requires Ordered(nodes) && forall k :: 0 <= k < |stack| ==> stack[k] < |nodes|
    decreases |stack|
  {
    if stack == [] then multiset{} else StackMs(nodes, stack[..|stack| - 1]) + SubtreeMs(nodes, stack[|stack| - 1])
  }

  // ---------------------------------------------------------------------
  // Looking up a child.

  /** `child` is a subdirectory whose path is `name`. */
  predicate NamedDirectory(nodes: seq<Directory>, child: Child, name: string) {
    child.DirChild? && child.index < |nodes| && nodes[child.index].path == name
  }

  /** `findChildDirectory`: the first subdirectory among `children` whose path is `name`; files never match. */
  function FirstChildDirectory(nodes: seq<Directory>, children: seq<Child>, name: string): (r: Option<nat>)
    ensures r.Some? ==> exists k :: 0 <= k < |children| && children[k] == DirChild(r.value) && NamedDirectory(nodes, children[k], name)
    ensures r.Some? ==> r.value < |nodes| && nodes[r.value].path == name
    ensures r.None? <==> forall k :: 0 <= k < |children| ==> !NamedDirectory(nodes, children[k], name)
    decreases |children|
  {
    if children == [] then None
    else if NamedDirectory(nodes, children[0], name) then Some(children[0].index)
    else
      var r := FirstChildDirectory(nodes, children[1..], name);
      assert forall k :: 1 <= k < |children| ==> children[k] == children[1..][k - 1];
      r
  }

  /** No child before the one found is a subdirectory called `name`. */
  lemma {:induction false} FirstChildDirectoryIsFirst(nodes: seq<Directory>, children: seq<Child>, name: string, k: nat)
    requires k < |children| && NamedDirectory(nodes, children[k], name)
    requires forall m :: 0 <= m < k ==> !NamedDirectory(nodes, children[m], name)
    ensures FirstChildDirectory(nodes, children, name) == Some(children[k].index)
    decreases k
  {
    if k > 0 {
      FirstChildDirectoryIsFirst(nodes, children[1..], name, k - 1);
    }
  }

  // ---------------------------------------------------------------------
  // The transcript.

  /** The interpreter's state: the tree so far, the current directory and whether lines are `ls` output. */
  datatype Session = Session(nodes: seq<Directory>, cwd: nat, lsOutput: bool)

  predicate Consistent(s: Session) {
    |s.nodes| >= 1 && s.cwd < |s.nodes| && Ordered(s.nodes) && ParentsBefore(s.nodes)
  }

  const Start := Session([Directory("/", None, [])], 0, false)

  /**
   * The size of an `ls` line for a file: `parseInt` without a radix of its
   * first word, so `0x1A` is 26. NaN (a bare `0x`) is recorded as 0.
   */
  function LeadingNumber(line: string): (n: nat)
    ensures var w := Text.Split(line, ' ')[0];
            line != [] && Text.IsDigit(line[0]) && Text.ParseIntAuto(w).Some? ==> n == Text.ParseIntAuto(w).value
  {
    FirstWordNotNegative(line);
    match Text.ParseIntAuto(Text.Split(line, ' ')[0])
    case Some(v) => if v >= 0 then v else 0
    case None => 0
  }

  /** A first word that starts with a digit has no sign, so it never reads as a negative number. */
  lemma FirstWordNotNegative(line: string)
    ensures var w := Text.Split(line, ' ')[0];
            line != [] && Text.IsDigit(line[0]) && Text.ParseIntAuto(w).Some? ==> Text.ParseIntAuto(w).value >= 0
  {
    if line != [] && Text.IsDigit(line[0]) {
      var w := Text.Split(line, ' ')[0];
      Text.FirstPieceStart(line, ' ');
      assert Text.LeadingSpaces(w) == 0;
    }
  }

  /** A listing line's size after `0x` is hexadecimal. */
  lemma LeadingNumberHex()
    ensures LeadingNumber("0x1A a") == 26
  {
    assert "0x1A a" == "0x1A" + [' '] + "a";
    Text.SplitCons("0x1A", ' ', "a");
    assert "0x1A" == ['0', 'x'] + "1A";
    Text.ParseIntAutoHex('x', "1A");
  }

  /** The file name of an `ls` line: its second word, or `undefined` when it has none. */
  function SecondWord(line: string): string {
    var parts := Text.Split(line, ' ');
    if |parts| >= 2 then parts[1] else "undefined"
  }

  /** The directory added for a `dir` line, and the entry for it appended to the current directory's children. */
  function AddDirectory(s: Session, name: string): (r: seq<Directory>)
    requires Consistent(s)
    ensures |r| == |s.nodes| + 1
  {
    var n := |s.nodes|;
    var grown := s.nodes + [Directory(s.nodes[s.cwd].path + name + "/", Some(s.cwd), [])];
    grown[s.cwd := grown[s.cwd].(children := grown[s.cwd].children + [DirChild(n)])]
  }

  /** The current directory with one more file. */
  function AddFile(s: Session, name: string, size: nat): (r: seq<Directory>)
    requires Consistent(s)
    ensures |r| == |s.nodes|
  {
    var cur := s.nodes[s.cwd];
    s.nodes[s.cwd := cur.(children := cur.children + [FileChild(cur.path + name, size)])]
  }

  /**
   * One line of the transcript. Errors: `cd` to an absolute path other than
   * `/`, `cd ..` from the root, `cd` to a name that is not a subdirectory, and
   * a listing line that is neither `dir` nor a size.
   */
  function Step(s: Session, line: string): (r: Result<Session>)
    requires Consistent(s)
    ensures r.Success? ==> Consistent(r.value)
    ensures r.Failure? <==>
      (line != "" && line != "$ ls" &&
        (|| (Text.StartsWith(line, "$ cd /") && line != "$ cd /")
         || (line == "$ cd .." && s.nodes[s.cwd].parent.None?)
         || (!Text.StartsWith(line, "$ cd /") && line != "$ cd .." && Text.StartsWith(line, "$ cd ")
             && FirstChildDirectory(s.nodes, s.nodes[s.cwd].children, s.nodes[s.cwd].path + line[5..] + "/").None?)
         || (s.lsOutput && line[0] != '$' && !Text.StartsWith(line, "dir ") && !Text.IsDigit(line[0]))))
  {
    if line == "" then Success(s)
    else if line == "$ ls" then Success(s.(lsOutput := true))
    else
      var ls := if Text.StartsWith(line, "$") then false else s.lsOutput;
      var cur := s.nodes[s.cwd];
      if Text.StartsWith(line, "$ cd /") then
        if line != "$ cd /" then Failure("unhandled case of cd to an absolute path")
        else Success(Session(s.nodes, 0, ls))
      else if line == "$ cd .." then
        if cur.parent.None? then Failure("unhandled case of cd .. from root")
        else Success(Session(s.nodes, cur.parent.value, ls))
      else if Text.StartsWith(line, "$ cd ") then
        match FirstChildDirectory(s.nodes, cur.children, cur.path + line[5..] + "/")
        case None => Failure("unhandled case of cd to an unknown path")
        case Some(c) => Success(Session(s.nodes, c, ls))
      else if ls then
        if Text.StartsWith(line, "dir ") then
          var nodes := AddDirectory(s, line[4..]);
          assert Ordered(nodes) by { AddDirectoryOrdered(s, line[4..]); }
          Success(Session(nodes, s.cwd, ls))
        else if Text.IsDigit(line[0]) then
          var nodes := AddFile(s, SecondWord(line), LeadingNumber(line));
          assert Ordered(nodes) by { AddFileOrdered(s, SecondWord(line), LeadingNumber(line)); }
          Success(Session(nodes, s.cwd, ls))
        else Failure("unhandled case of ls output: " + line)
      else Success(Session(s.nodes, s.cwd, ls))
  }

  lemma AddDirectoryOrdered(s: Session, name: string)
    requires Consistent(s)
    ensures Ordered(AddDirectory(s, name)) && ParentsBefore(AddDirectory(s, name))
  {
    var nodes := AddDirectory(s, name);
    forall i, k | 0 <= i < |nodes| && 0 <= k < |nodes[i].children| && nodes[i].children[k].DirChild?
      ensures i < nodes[i].children[k].index < |nodes|
    {
      if i == s.cwd && k == |nodes[i].children| - 1 {
      } else {
        assert nodes[i].children[k] == s.nodes[i].children[k];
      }
    }
  }

  lemma AddFileOrdered(s: Session, name: string, size: nat)
    requires Consistent(s)
    ensures Ordered(AddFile(s, name, size)) && ParentsBefore(AddFile(s, name, size))
  {
    var nodes := AddFile(s, name, size);
    forall i, k | 0 <= i < |nodes| && 0 <= k < |nodes[i].children| && nodes[i].children[k].DirChild?
      ensures i < nodes[i].children[k].index < |nodes|
    {
      assert nodes[i].children[k] == s.nodes[i].children[k];
    }
  }

  /** A line that is not a command is ignored unless it follows `$ ls` with no command in between. */
  lemma ListingOnlyAfterLs(s: Session, line: string)
    requires Consistent(s) && line != "" && line[0] != '$' && !s.lsOutput
    ensures Step(s, line) == Success(s)
  {
  }

  /** `$ ls` starts a listing, and every other command ends it. */
  lemma CommandsSetListing(s: Session, line: string)
    requires Consistent(s) && line != "" && line[0] == '$'
    ensures Step(s, line).Success? ==> Step(s, line).value.lsOutput == (line == "$ ls")
  {
  }

  /** The session after the lines of a transcript, from the root with no listing. */
  function Interpret(lines: seq<string>): (r: Result<Session>)
    ensures r.Success? ==> Consistent(r.value)
    decreases |lines|
  {
    if lines == [] then Success(Start)
    else
      match Interpret(lines[..|lines| - 1])
      case Failure(e) => Failure(e)
      case Success(s) => Step(s, lines[|lines| - 1])
  }

  /** Each line keeps the tree well formed. */
  lemma StepWellFormed(s: Session, line: string)
    requires Consistent(s) && WellFormed(s.nodes)
    ensures Step(s, line).Success? ==> WellFormed(Step(s, line).value.nodes)
  {
    if line != "" && line != "$ ls" && Step(s, line).Success? {
      var ls := if Text.StartsWith(line, "$") then false else s.lsOutput;
      if !Text.StartsWith(line, "$ cd /") && line != "$ cd .." && !Text.StartsWith(line, "$ cd ") && ls {
        if Text.StartsWith(line, "dir ") {
          AddDirectoryWellFormed(s, line[4..]);
        } else {
          AddFileWellFormed(s, SecondWord(line), LeadingNumber(line));
        }
      }
    }
  }

  lemma AddDirectoryWellFormed(s: Session, name: string)
    requires Consistent(s) && WellFormed(s.nodes)
    ensures WellFormed(AddDirectory(s, name))
  {
    AddDirectoryOrdered(s, name);
    AddDirectoryLinked(s, name);
    AddDirectoryEntries(s, name);
  }

  /** After `dir name`, every subdirectory entry still names a directory whose parent is the listing directory. */
  lemma AddDirectoryLinked(s: Session, name: string)
    requires Consistent(s) && WellFormed(s.nodes)
    ensures var nodes := AddDirectory(s, name);
      forall i, k :: 0 <= i < |nodes| && 0 <= k < |nodes[i].children| && nodes[i].children[k].DirChild? ==>
        ParentLinked(nodes, i, nodes[i].children[k].index)
  {
    var n := |s.nodes|;
    var nodes := AddDirectory(s, name);
    assert nodes[n].parent == Some(s.cwd);
    forall i, k | 0 <= i < |nodes| && 0 <= k < |nodes[i].children| && nodes[i].children[k].DirChild?
      ensures ParentLinked(nodes, i, nodes[i].children[k].index)
    {
      if i == s.cwd && k == |nodes[i].children| - 1 {
      } else {
        assert nodes[i].children[k] == s.nodes[i].children[k];
        assert ParentLinked(s.nodes, i, s.nodes[i].children[k].index);
      }
    }
  }

  /** After `dir name`, the new directory and every old one appear once among their parent's children. */
  lemma AddDirectoryEntries(s: Session, name: string)
    requires Consistent(s) && WellFormed(s.nodes)
    ensures var nodes := AddDirectory(s, name);
      (forall j :: 0 < j < |nodes| ==> nodes[j].parent.Some?) &&
      forall j :: 0 < j < |nodes| ==> ParentEntries(nodes, j) == 1
  {
    var n := |s.nodes|;
    var nodes := AddDirectory(s, name);
    forall j | 0 < j < |nodes|
      ensures nodes[j].parent.Some? && ParentEntries(nodes, j) == 1
    {
      if j < n {
        assert nodes[j].parent == s.nodes[j].parent;
        assert ParentEntries(s.nodes, j) == 1;
      }
      var p := nodes[j].parent.value;
      if p == s.cwd {
        assert nodes[p].children == s.nodes[p].children + [DirChild(n)];
        if j == n {
          assert DirChild(n) !in s.nodes[p].children;
        }
      } else {
        assert nodes[p].children == s.nodes[p].children;
      }
    }
  }

  lemma AddFileWellFormed(s: Session, name: string, size: nat)
    requires Consistent(s) && WellFormed(s.nodes)
    ensures WellFormed(AddFile(s, name, size))
  {
    var nodes := AddFile(s, name, size);
    AddFileOrdered(s, name, size);
    forall i, k | 0 <= i < |nodes| && 0 <= k < |nodes[i].children| && nodes[i].children[k].DirChild?
      ensures nodes[i].children[k].index < |nodes| && nodes[nodes[i].children[k].index].parent == Some(i)
    {
      assert nodes[i].children[k] == s.nodes[i].children[k];
    }
    forall j | 0 < j < |nodes|
      ensures ParentEntries(nodes, j) == 1
    {
      assert nodes[j].parent == s.nodes[j].parent;
      assert ParentEntries(s.nodes, j) == 1;
      var p := nodes[j].parent.value;
      if p == s.cwd {
        assert nodes[p].children == s.nodes[p].children + [FileChild(s.nodes[p].path + name, size)];
      }
    }
  }

  /** Every transcript that is read without error yields a well-formed tree. */
  lemma {:induction false} InterpretWellFormed(lines: seq<string>)
    ensures Interpret(lines).Success? ==> WellFormed(Interpret(lines).value.nodes)
    decreases |lines|
  {
    if lines == [] {
      assert Ordered(Start.nodes);
    } else {
      InterpretWellFormed(lines[..|lines| - 1]);
      if Interpret(lines[..|lines| - 1]).Success? {
        StepWellFormed(Interpret(lines[..|lines| - 1]).value, lines[|lines| - 1]);
      }
    }
  }

  // ---------------------------------------------------------------------
  // The objects.

  /** The directories of the transcript, updated in place as it is read. */
  class FileTree {
    var nodes: seq<Directory>

    constructor()
      ensures nodes == Start.nodes
    {
      nodes := [Directory("/", None, [])];
    }

    /** `new Directory(path, parent)`: a directory with no children; returns its index. */
    method NewDirectory(path: string, parent: nat) returns (index: nat)
      modifies this
      ensures index == |old(nodes)| && nodes == old(nodes) + [Directory(path, Some(parent), [])]
    {
      index := |nodes|;
      nodes := nodes + [Directory(path, Some(parent), [])];
    }

    /** `addChild`: appends a child to directory `i`. */
    method AddChild(i: nat, child: Child)
      requires i < |nodes|
      modifies this
      ensures nodes == old(nodes)[i := old(nodes)[i].(children := old(nodes)[i].children + [child])]
    {
      nodes := nodes[i := nodes[i].(children := nodes[i].children + [child])];
    }

    /** `findChildDirectory`: scans the children of `i` in order. */
    method FindChildDirectory(i: nat, name: string) returns (r: Option<nat>)
      requires i < |nodes| && Ordered(nodes)
      ensures r == FirstChildDirectory(nodes, nodes[i].children, name)
    {
      var children := nodes[i].children;
      for k := 0 to |children|
        invariant FirstChildDirectory(nodes, children, name) == FirstChildDirectory(nodes, children[k..], name)
      {
        var child := children[k];
        if child.DirChild? && nodes[child.index].path == name {
          return Some(child.index);
        }
        assert children[k..][1..] == children[k + 1..];
      }
      return None;
    }
  }

  /** One line of `run`'s loop on the objects: returns the new current directory and listing flag. */
  method ProcessLine(tree: FileTree, cwd: nat, lsOutput: bool, line: string) returns (r: Result<(nat, bool)>)
    requires Consistent(Session(tree.nodes, cwd, lsOutput))
    modifies tree
    ensures var expected := Step(Session(old(tree.nodes), cwd, lsOutput), line);
      && (r.Failure? <==> expected.Failure?)
      && (r.Success? ==> expected.value == Session(tree.nodes, r.value.0, r.value.1))
  {
    if line == "" {
      return Success((cwd, lsOutput));
    }
    if line == "$ ls" {
      return Success((cwd, true));
    }
    var ls := lsOutput;
    if Text.StartsWith(line, "$") {
      ls := false;
    }
    if Text.StartsWith(line, "$ cd /") {
      if line != "$ cd /" {
        return Failure("unhandled case of cd to an absolute path");
      }
      return Success((0, ls));
    } else if line == "$ cd .." {
      var parent := tree.nodes[cwd].parent;
      if parent.None? {
        return Failure("unhandled case of cd .. from root");
      }
      return Success((parent.value, ls));
    } else if Text.StartsWith(line, "$ cd ") {
      var newd := tree.FindChildDirectory(cwd, tree.nodes[cwd].path + line[5..] + "/");
      if newd.None? {
        return Failure("unhandled case of cd to an unknown path");
      }
      return Success((newd.value, ls));
    } else if ls {
      if Text.StartsWith(line, "dir ") {
        var newd := tree.NewDirectory(tree.nodes[cwd].path + line[4..] + "/", cwd);
        tree.AddChild(cwd, DirChild(newd));
      } else if Text.IsDigit(line[0]) {
        tree.AddChild(cwd, FileChild(tree.nodes[cwd].path + SecondWord(line), LeadingNumber(line)));
      } else {
        return Failure("unhandled case of ls output: " + line);
      }
    }
    return Success((cwd, ls));
  }

  /** The line loop of `run`: reads the whole transcript into a new tree, or fails on the first bad line. */
  method ReadTranscript(lines: seq<string>) returns (r: Result<FileTree>)
    ensures r.Success? <==> Interpret(lines).Success?
    ensures r.Success? ==> r.value.nodes == Interpret(lines).value.nodes
  {
    var tree := new FileTree();
    var cwd: nat := 0;
    var lsOutput := false;
    for i := 0 to |lines|
      invariant Interpret(lines[..i]) == Success(Session(tree.nodes, cwd, lsOutput))
    {
      assert lines[..i + 1][..i] == lines[..i];
      var step := ProcessLine(tree, cwd, lsOutput, lines[i]);
      if step.Failure? {
        FailureSticks(lines, i + 1);
        return Failure(step.error);
      }
      cwd, lsOutput := step.value.0, step.value.1;
    }
    assert lines[..|lines|] == lines;
    return Success(tree);
  }

  /** Once a line fails, the whole transcript fails. */
  lemma {:induction false} FailureSticks(lines: seq<string>, i: nat)
    requires i <= |lines| && Interpret(lines[..i]).Failure?
    ensures Interpret(lines).Failure?
    decreases |lines| - i
  {
    if i < |lines| {
      assert lines[..i + 1][..i] == lines[..i];
      FailureSticks(lines, i + 1);
    } else {
      assert lines[..i] == lines;
    }
  }

  /** `size` on the objects: a loop over the children, recursing into subdirectories. */
  method SizeOf(tree: FileTree, i: nat) returns (ret: nat)
    requires Ordered(tree.nodes) && i < |tree.nodes|
    ensures ret == Size(tree.nodes, i)
    decreases |tree.nodes| - i
  {
    ret := 0;
    var children := tree.nodes[i].children;
    for k := 0 to |children|
      invariant ret == ChildrenSize(tree.nodes, i, k)
    {
      match children[k]
      case FileChild(_, s) =>
        ret := ret + s;
      case DirChild(c) =>
        var sub := SizeOf(tree, c);
        ret := ret + sub;
    }
  }

  /** The stack walk at the end of `run`: every directory of the root's subtree, each as often as it occurs there. */
  method CollectDirectories(tree: FileTree) returns (dirs: seq<nat>)
    requires Ordered(tree.nodes) && |tree.nodes| >= 1
    ensures multiset(dirs) == SubtreeMs(tree.nodes, 0)
  {
    var nodes := tree.nodes;
    dirs := [];
    var stack: seq<nat> := [0];
    assert StackMs(nodes, stack) == SubtreeMs(nodes, 0);
    while |stack| > 0
      invariant forall k :: 0 <= k < |stack| ==> stack[k] < |nodes|
      invariant multiset(dirs) + StackMs(nodes, stack) == SubtreeMs(nodes, 0)
      decreases |StackMs(nodes, stack)|
    {
      var d := stack[|stack| - 1];
      stack := stack[..|stack| - 1];
      dirs := dirs + [d];
      stack := PushSubdirectories(nodes, d, stack);
    }
  }

  /** Pushes the subdirectories of `d` in order: the stack gains their subtrees. */
  method PushSubdirectories(nodes: seq<Directory>, d: nat, stack: seq<nat>) returns (pushed: seq<nat>)
    requires Ordered(nodes) && d < |nodes| && forall k :: 0 <= k < |stack| ==> stack[k] < |nodes|
    ensures forall k :: 0 <= k < |pushed| ==> pushed[k] < |nodes|
    ensures StackMs(nodes, pushed) == StackMs(nodes, stack) + ChildrenMs(nodes, d, |nodes[d].children|)
  {
    var children := nodes[d].children;
    pushed := stack;
    for k := 0 to |children|
      invariant forall m :: 0 <= m < |pushed| ==> pushed[m] < |nodes|
      invariant StackMs(nodes, pushed) == StackMs(nodes, stack) + ChildrenMs(nodes, d, k)
    {
      var child := children[k];
      if child.DirChild? {
        PushedStep(nodes, d, k, stack, pushed);
        pushed := pushed + [child.index];
      } else {
        ChildrenMsStep(nodes, d, k);
      }
    }
  }

  /** Pushing the `k`-th child of `d`, a directory, keeps the stack equal to the start and the first `k + 1` subtrees. */
  lemma PushedStep(nodes: seq<Directory>, d: nat, k: nat, stack: seq<nat>, pushed: seq<nat>)
    requires Ordered(nodes) && d < |nodes| && k < |nodes[d].children| && nodes[d].children[k].DirChild?
    requires forall m :: 0 <= m < |stack| ==> stack[m] < |nodes|
    requires forall m :: 0 <= m < |pushed| ==> pushed[m] < |nodes|
    requires StackMs(nodes, pushed) == StackMs(nodes, stack) + ChildrenMs(nodes, d, k)
    ensures var next := pushed + [nodes[d].children[k].index];
      && (forall m :: 0 <= m < |next| ==> next[m] < |nodes|)
      && StackMs(nodes, next) == StackMs(nodes, stack) + ChildrenMs(nodes, d, k + 1)
  {
    var c := nodes[d].children[k].index;
    assert forall m :: 0 <= m < |pushed| ==> (pushed + [c])[m] == pushed[m];
    ChildrenMsStep(nodes, d, k);
    StackMsPush(nodes, pushed, c);
    MultisetAssoc(StackMs(nodes, stack), ChildrenMs(nodes, d, k), SubtreeMs(nodes, c));
  }

  /** One more child adds its subtree if it is a directory. */
  lemma ChildrenMsStep(nodes: seq<Directory>, i: nat, k: nat)
    requires Ordered(nodes) && i < |nodes| && k < |nodes[i].children|
    ensures nodes[i].children[k].FileChild? ==> ChildrenMs(nodes, i, k + 1) == ChildrenMs(nodes, i, k)
    ensures nodes[i].children[k].DirChild? ==>
      ChildrenMs(nodes, i, k + 1) == ChildrenMs(nodes, i, k) + SubtreeMs(nodes, nodes[i].children[k].index)
  {
    var before := ChildrenMs(nodes, i, k);
    assert before + multiset{} == before;
  }

  lemma MultisetAssoc(a: multiset<nat>, b: multiset<nat>, c: multiset<nat>)
    ensures a + b + c == a + (b + c)
  {
  }

  /** Pushing a directory adds its subtree. */
  lemma StackMsPush(nodes: seq<Directory>, stack: seq<nat>, c: nat)
    requires Ordered(nodes) && c < |nodes| && forall k :: 0 <= k < |stack| ==> stack[k] < |nodes|
    ensures StackMs(nodes, stack + [c]) == StackMs(nodes, stack) + SubtreeMs(nodes, c)
  {
    assert (stack + [c])[..|stack|] == stack;
  }

  /** The directories `0 .. n - 1` in order. */
  function Range(n: nat): (r: seq<nat>)
    ensures |r| == n && forall k :: 0 <= k < n ==> r[k] == k
  {
    if n == 0 then [] else Range(n - 1) + [n - 1]
  }

  lemma {:induction false} RangeCounts(n: nat)
    ensures forall j :: 0 <= j < n ==> multiset(Range(n))[j] == 1
    ensures forall j :: j in multiset(Range(n)) ==> j < n
  {
    if n > 0 {
      RangeCounts(n - 1);
      var last: nat := n - 1;
      var before := multiset(Range(n - 1));
      assert Range(n) == Range(n - 1) + [last];
      assert multiset(Range(n)) == before + multiset{last};
      assert last !in before;
      forall j | 0 <= j < n
        ensures multiset(Range(n))[j] == 1
      {
        if j < last {
          assert before[j] == 1;
        }
      }
    }
  }

  /** The collected directories are exactly the directories of a well-formed tree. */
  lemma CollectedAreAll(nodes: seq<Directory>, dirs: seq<nat>)
    requires WellFormed(nodes) && multiset(dirs) == SubtreeMs(nodes, 0)
    ensures multiset(dirs) == multiset(Range(|nodes|))
  {
    EveryDirectoryOnce(nodes);
    RangeCounts(|nodes|);
    forall j
      ensures multiset(dirs)[j] == multiset(Range(|nodes|))[j]
    {
      if j >= |nodes| {
        assert j !in multiset(dirs);
        assert j !in multiset(Range(|nodes|));
      }
    }
  }

  // ---------------------------------------------------------------------
  // The two parts.

  /** The size of every directory, by index. */
  ghost function AllSizes(nodes: seq<Directory>): (r: seq<int>)
    requires Ordered(nodes)
    ensures |r| == |nodes| && forall j :: 0 <= j < |nodes| ==> r[j] == Size(nodes, j)
  {
    seq(|nodes|, j requires 0 <= j < |nodes| => Size(nodes, j))
  }

  /** The entries of `all` at the indices `ids`, in the order of `ids`. */
  function Lookup(all: seq<int>, ids: seq<nat>): (r: seq<int>)
    requires forall k :: 0 <= k < |ids| ==> ids[k] < |all|
    ensures |r| == |ids| && forall k :: 0 <= k < |ids| ==> r[k] == all[ids[k]]
  {
    seq(|ids|, k requires 0 <= k < |ids| => all[ids[k]])
  }

  /** Looking up a rearrangement of the indices gives a rearrangement of the entries. */
  lemma {:induction false} LookupPermutation(all: seq<int>, a: seq<nat>, b: seq<nat>)
    requires multiset(a) == multiset(b)
    requires forall k :: 0 <= k < |a| ==> a[k] < |all|
    ensures forall k :: 0 <= k < |b| ==> b[k] < |all|
    ensures multiset(Lookup(all, a)) == multiset(Lookup(all, b))
    decreases |a|
  {
    forall k | 0 <= k < |b|
      ensures b[k] < |all|
    {
      assert b[k] in multiset(a);
    }
    if a != [] {
      var x := a[|a| - 1];
      assert x in multiset(b);
      var k :| 0 <= k < |b| && b[k] == x;
      var front := a[..|a| - 1];
      var rest := b[..k] + b[k + 1..];
      RemoveMatched(a, b, k);
      forall m | 0 <= m < |front|
        ensures front[m] < |all|
      {
        assert front[m] == a[m];
      }
      LookupPermutation(all, front, rest);
      assert Lookup(all, a) == Lookup(all, front) + [all[x]];
      assert Lookup(all, b) == Lookup(all, b[..k]) + [all[x]] + Lookup(all, b[k + 1..]);
      assert Lookup(all, rest) == Lookup(all, b[..k]) + Lookup(all, b[k + 1..]);
    }
  }

  /** Taking the last of `a` and the same value at `k` from `b` keeps the two multisets equal. */
  lemma RemoveMatched(a: seq<nat>, b: seq<nat>, k: nat)
    requires multiset(a) == multiset(b) && a != [] && k < |b| && b[k] == a[|a| - 1]
    ensures multiset(a[..|a| - 1]) == multiset(b[..k] + b[k + 1..])
  {
    var x := b[k];
    assert a == a[..|a| - 1] + [x];
    assert b == b[..k] + [x] + b[k + 1..];
    assert multiset(a[..|a| - 1]) == multiset(a) - multiset{x};
    assert multiset(b[..k] + b[k + 1..]) == multiset(b) - multiset{x};
  }

  /** The sizes of the collected directories are the sizes of all directories, rearranged. */
  lemma CollectedSizes(nodes: seq<Directory>, dirs: seq<nat>, sizes: seq<int>)
    requires Ordered(nodes) && multiset(dirs) == multiset(Range(|nodes|))
    requires |sizes| == |dirs| && forall k :: 0 <= k < |dirs| ==> dirs[k] < |nodes| && sizes[k] == Size(nodes, dirs[k])
    ensures multiset(sizes) == multiset(AllSizes(nodes))
  {
    var all := AllSizes(nodes);
    LookupIs(all, dirs, sizes);
    LookupIs(all, Range(|nodes|), all);
    LookupPermutation(all, dirs, Range(|nodes|));
  }

  /** A sequence holding `all[ids[k]]` at each `k` is the lookup of `ids`. */
  lemma LookupIs(all: seq<int>, ids: seq<nat>, r: seq<int>)
    requires forall k :: 0 <= k < |ids| ==> ids[k] < |all|
    requires |r| == |ids| && forall k :: 0 <= k < |ids| ==> r[k] == all[ids[k]]
    ensures r == Lookup(all, ids)
  {
  }

  /** The sizes at most 100000 among `sizes`, added up. */
  function SmallSum(sizes: seq<int>): int
    decreases |sizes|
  {
    if sizes == [] then 0
    else
      var s := sizes[|sizes| - 1];
      SmallSum(sizes[..|sizes| - 1]) + (if s <= SmallDirectoryLimit then s else 0)
  }

  lemma {:induction false} SmallSumAppend(a: seq<int>, b: seq<int>)
    ensures SmallSum(a + b) == SmallSum(a) + SmallSum(b)
    decreases |b|
  {
    if b == [] {
      assert a + b == a;
    } else {
      assert (a + b)[..|a + b| - 1] == a + b[..|b| - 1];
      SmallSumAppend(a, b[..|b| - 1]);
    }
  }

  /** The total does not depend on the order of the sizes. */
  lemma {:induction false} SmallSumPermutation(a: seq<int>, b: seq<int>)
    requires multiset(a) == multiset(b)
    ensures SmallSum(a) == SmallSum(b)
    decreases |a|
  {
    if a != [] {
      var x := a[|a| - 1];
      assert x in multiset(b);
      var k :| 0 <= k < |b| && b[k] == x;
      var front := a[..|a| - 1];
      assert a == front + [x];
      assert b == b[..k] + [x] + b[k + 1..];
      assert multiset(front) == multiset(a) - multiset{x};
      assert multiset(b[..k] + b[k + 1..]) == multiset(b) - multiset{x};
      SmallSumPermutation(front, b[..k] + b[k + 1..]);
      SmallSumAppend(front, [x]);
      SmallSumAppend(b[..k], [x]);
      SmallSumAppend(b[..k] + [x], b[k + 1..]);
      SmallSumAppend(b[..k], b[k + 1..]);
      assert SmallSum([x]) == SmallSum([]) + (if x <= SmallDirectoryLimit then x else 0);
    }
  }

  /** Every directory of size at most 100000 adds its whole size, and the rest add nothing. */
  lemma {:induction false} SmallSumBounds(sizes: seq<int>)
    requires forall k :: 0 <= k < |sizes| ==> sizes[k] >= 0
    ensures 0 <= SmallSum(sizes) <= |sizes| * SmallDirectoryLimit
    decreases |sizes|
  {
    if sizes != [] {
      SmallSumBounds(sizes[..|sizes| - 1]);
    }
  }

  /** Part one: the total size of the directories of size at most 100000. */
  method PartOne(lines: seq<string>) returns (r: Result<int>)
    ensures r.Success? <==> Interpret(lines).Success?
    ensures r.Success? ==>
      var nodes := Interpret(lines).value.nodes;
      Ordered(nodes) && r.value == SmallSum(AllSizes(nodes))
  {
    var read := ReadTranscript(lines);
    if read.Failure? {
      return Failure(read.error);
    }
    var tree := read.value;
    var sizes := CollectedSizesOf(tree, lines);
    var ret := 0;
    for k := 0 to |sizes|
      invariant ret == SmallSum(sizes[..k])
    {
      assert sizes[..k + 1][..k] == sizes[..k];
      if sizes[k] <= SmallDirectoryLimit {
        ret := ret + sizes[k];
      }
    }
    assert sizes[..|sizes|] == sizes;
    SmallSumPermutation(sizes, AllSizes(tree.nodes));
    return Success(ret);
  }

  /** The stack walk and the size of each directory found, for a tree read from `lines`. */
  method CollectedSizesOf(tree: FileTree, lines: seq<string>) returns (sizes: seq<int>)
    requires Interpret(lines).Success? && tree.nodes == Interpret(lines).value.nodes
    ensures Ordered(tree.nodes) && WellFormed(tree.nodes)
    ensures multiset(sizes) == multiset(AllSizes(tree.nodes))
  {
    InterpretWellFormed(lines);
    var dirs := CollectDirectories(tree);
    CollectedAreAll(tree.nodes, dirs);
    forall k | 0 <= k < |dirs|
      ensures dirs[k] < |tree.nodes|
    {
      assert dirs[k] in multiset(dirs);
    }
    sizes := DirectorySizes(tree, dirs);
    CollectedSizes(tree.nodes, dirs, sizes);
  }

  /** Deleting a directory of this size would leave the required free space. */
  predicate FreesEnough(rootSize: int, size: int) {
    TotalDiskSpace - rootSize + size >= RequiredFreeDiskSpace
  }

  /** The largest entry of an ascending rearrangement of `all` is `all`'s maximum. */
  lemma SortedLast(all: seq<int>, sorted: seq<int>, top: nat)
    requires Sorting.SortedAscending(sorted) && multiset(sorted) == multiset(all)
    requires top < |all| && forall j :: 0 <= j < |all| ==> all[j] <= all[top]
    ensures |sorted| == |all| && sorted[|sorted| - 1] == all[top]
  {
    assert |sorted| == |all| by {
      assert |multiset(sorted)| == |multiset(all)|;
    }
    var last := |sorted| - 1;
    assert sorted[last] in multiset(all);
    var j :| 0 <= j < |all| && all[j] == sorted[last];
    assert all[top] in multiset(sorted);
    var m :| 0 <= m < |sorted| && sorted[m] == all[top];
  }

  /**
   * In an ascending rearrangement of `all`, the first entry that frees enough
   * is an entry of `all` and no larger than any entry of `all` that frees enough.
   */
  lemma FirstFreeingIsSmallest(all: seq<int>, sorted: seq<int>, rootSize: int, i: nat)
    requires Sorting.SortedAscending(sorted) && multiset(sorted) == multiset(all)
    requires i < |sorted| && FreesEnough(rootSize, sorted[i])
    requires forall m :: 0 <= m < i ==> !FreesEnough(rootSize, sorted[m])
    ensures exists j :: 0 <= j < |all| && all[j] == sorted[i]
    ensures forall j :: 0 <= j < |all| && FreesEnough(rootSize, all[j]) ==> sorted[i] <= all[j]
  {
    assert sorted[i] in multiset(all);
    forall j | 0 <= j < |all| && FreesEnough(rootSize, all[j])
      ensures sorted[i] <= all[j]
    {
      assert all[j] in multiset(sorted);
      var m :| 0 <= m < |sorted| && sorted[m] == all[j];
      assert i <= m;
    }
  }

  /** Every size of a well-formed tree is at most the root's. */
  lemma RootSizeIsMax(nodes: seq<Directory>)
    requires WellFormed(nodes)
    ensures forall j :: 0 <= j < |nodes| ==> AllSizes(nodes)[j] <= AllSizes(nodes)[0]
  {
    forall j | 0 <= j < |nodes|
      ensures Size(nodes, j) <= Size(nodes, 0)
    {
      RootIsLargest(nodes, j);
    }
  }

  /**
   * Part two: the smallest directory whose deletion leaves 30000000 free out
   * of 70000000, given the root's size; `None` is the failure message (which a
   * well-formed tree never reaches: deleting the root always suffices).
   */
  method PartTwo(lines: seq<string>) returns (r: Result<Option<int>>)
    ensures r.Success? <==> Interpret(lines).Success?
    ensures r.Success? ==>
      var nodes := Interpret(lines).value.nodes;
      && Ordered(nodes)
      && r.value.Some?
      && (exists j :: 0 <= j < |nodes| && Size(nodes, j) == r.value.value && FreesEnough(Size(nodes, 0), r.value.value))
      && (forall j :: 0 <= j < |nodes| && FreesEnough(Size(nodes, 0), Size(nodes, j)) ==> r.value.value <= Size(nodes, j))
  {
    var read := ReadTranscript(lines);
    if read.Failure? {
      return Failure(read.error);
    }
    var tree := read.value;
    var sizes := CollectedSizesOf(tree, lines);
    ghost var all := AllSizes(tree.nodes);
    var sorted := Sorting.SortAscending(sizes);
    RootSizeIsMax(tree.nodes);
    SortedLast(all, sorted, 0);
    var rootSize := sorted[|sorted| - 1];
    var found := FirstFreeing(sorted, rootSize);
    if found.None? {
      assert false;
      return Success(None);
    }
    FirstFreeingIsSmallest(all, sorted, rootSize, found.value);
    return Success(Some(sorted[found.value]));
  }

  /** The loop of `two`: the first of the sorted sizes whose deletion frees enough space, if any. */
  method FirstFreeing(sorted: seq<int>, rootSize: int) returns (found: Option<nat>)
    ensures found.Some? ==> found.value < |sorted| && FreesEnough(rootSize, sorted[found.value])
    ensures found.Some? ==> forall m :: 0 <= m < found.value ==> !FreesEnough(rootSize, sorted[m])
    ensures found.None? ==> forall m :: 0 <= m < |sorted| ==> !FreesEnough(rootSize, sorted[m])
  {
    var currentFreeSpace := TotalDiskSpace - rootSize;
    for i := 0 to |sorted|
      invariant forall m :: 0 <= m < i ==> !FreesEnough(rootSize, sorted[m])
    {
      if currentFreeSpace + sorted[i] >= RequiredFreeDiskSpace {
        return Some(i);
      }
    }
    return None;
  }

  /** The size of each collected directory, in order. */
  method DirectorySizes(tree: FileTree, dirs: seq<nat>) returns (sizes: seq<int>)
    requires Ordered(tree.nodes) && forall k :: 0 <= k < |dirs| ==> dirs[k] < |tree.nodes|
    ensures |sizes| == |dirs| && forall k :: 0 <= k < |dirs| ==> sizes[k] == Size(tree.nodes, dirs[k])
  {
    sizes := [];
    ghost var nodes := tree.nodes;
    for k := 0 to |dirs|
      invariant tree.nodes == nodes
      invariant |sizes| == k && forall m :: 0 <= m < k ==> sizes[m] == Size(tree.nodes, dirs[m])
    {
      var s := SizeOf(tree, dirs[k]);
      sizes := sizes + [s];
    }
  }
}
