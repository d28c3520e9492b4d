// The tables and the path walk of source/kernel/vfs.c as values.
module VfsModel {
  import opened CStrings

  const MAX_FILESYSTEMS: nat := 100
  const MAX_MOUNTS: nat := 255
  const MOUNT_NAME: nat := 9        // characters of vfs_mount_t.mount, without the terminator
  const PREFIX: nat := 10           // characters of the buffer of vsf_get_mount
  const COMPONENT: nat := 254       // characters of the buffer of vfs_get_node_from_path
  const FS_DIRECTORY: nat := 2
  const FS_BLOCKDEVICE: nat := 4

  datatype Option<+T> = None | Some(value: T)

  /** vfs_node_t, as far as the walk looks at it. */
  datatype Node = Node(inode: nat, flags: nat, major: nat, minor: nat)

  predicate IsDirectory(n: Node) {
    n.flags % 8 == FS_DIRECTORY
  }

  /** vfs_info_t and vfs_system_t: hasMount says whether there is a mount operation. */
  datatype System = System(enabled: bool, tag: CString, hasMount: bool, mountCount: int)

  /** vfs_mount_t: system is the place of the file system in its table. */
  datatype Mount = Mount(enabled: bool, name: CString, system: nat, dev: Option<nat>, supernode: Option<Node>)

  /** The file systems and device drivers, which answer as they like. */
  datatype Drivers = Drivers(
    finddir: (Node, string) -> Option<Node>,
    device: (nat, nat) -> Option<nat>,
    mountOp: (nat, string, Option<nat>, string) -> Option<Node>)

  datatype Tables = Tables(systems: seq<System>, mounts: seq<Mount>)

  /** The parameters of sys_mount. */
  datatype Request = Request(device: Option<CString>, tag: CString, name: CString, path: CString, remount: bool)

  /** A system call returns 1 or 0, stops the kernel, or goes wrong: it writes past the end of a
      fixed buffer or reads through a null pointer. */
  datatype Outcome = Success | Failure | Panic | Fault

  datatype Walk = Found(node: Node) | Missing | WalkPanic | WalkFault

  // ---------------------------------------------------------------------------
  // Searches

  /** The first marked place, or the length if there is none. */
  function First(marks: seq<bool>): (i: nat)
    ensures i <= |marks| && (i < |marks| ==> marks[i])
    ensures forall j :: 0 <= j < i ==> !marks[j]
  {
    if |marks| == 0 || marks[0] then 0
    else
      var i := First(marks[1..]);
      assert forall j :: 0 < j < i + 1 ==> marks[j] == marks[1..][j - 1];
      i + 1
  }

  lemma FirstHere(marks: seq<bool>, i: nat)
    requires i <= |marks| && (i < |marks| ==> marks[i])
    requires forall j :: 0 <= j < i ==> !marks[j]
    ensures First(marks) == i
  {
    hide First;
  }

  function FreeSystems(systems: seq<System>): (marks: seq<bool>)
    ensures |marks| == |systems| && forall i :: 0 <= i < |marks| ==> marks[i] == !systems[i].enabled
  {
    seq(|systems|, i requires 0 <= i < |systems| => !systems[i].enabled)
  }

  function SystemsWith(systems: seq<System>, tag: CString): (marks: seq<bool>)
    ensures |marks| == |systems|
    ensures forall i :: 0 <= i < |marks| ==> marks[i] == (systems[i].enabled && systems[i].tag == tag)
  {
    seq(|systems|, i requires 0 <= i < |systems| => systems[i].enabled && systems[i].tag == tag)
  }

  function MountsNamed(mounts: seq<Mount>, name: CString): (marks: seq<bool>)
    ensures |marks| == |mounts|
    ensures forall i :: 0 <= i < |marks| ==> marks[i] == (mounts[i].enabled && mounts[i].name == name)
  {
    seq(|mounts|, i requires 0 <= i < |mounts| => mounts[i].enabled && mounts[i].name == name)
  }

  /** The slots that sys_mount may take. */
  function SlotsFor(mounts: seq<Mount>, name: CString, remount: bool): (marks: seq<bool>)
    ensures |marks| == |mounts|
    ensures forall i :: 0 <= i < |marks| ==> marks[i] == (!mounts[i].enabled || (remount && mounts[i].name == name))
  {
    seq(|mounts|, i requires 0 <= i < |mounts| => !mounts[i].enabled || (remount && mounts[i].name == name))
  }

  // ---------------------------------------------------------------------------
  // Paths

  /** The pieces between the slashes. */
  function Split(s: CString): (parts: seq<CString>)
    ensures |parts| > 0
    decreases |s|
  {
    var i := Cut(s, '/');
    if i == |s| then [s] else [s[..i]] + Split(s[i + 1..])
  }

  /** What the walk looks up, for the path after its first slash: nothing in an empty path, and an
      empty piece at the front is passed over. */
  function Components(s: CString): seq<CString> {
    if |s| == 0 then []
    else if s[0] == '/' then Split(s[1..])
    else Split(s)
  }

  function Join(parts: seq<CString>): CString {
    if |parts| == 0 then ""
    else if |parts| == 1 then parts[0]
    else parts[0] + "/" + Join(parts[1..])
  }

  /** The names of a path, one after the other. */
  function Fold(d: Drivers, node: Node, parts: seq<CString>): (w: Walk)
    decreases |parts|
  {
    if |parts| == 0 then Found(node)
    else if !IsDirectory(node) then Missing
    else if |parts[0]| > COMPONENT then WalkFault
    else if parts[0] == "." then Fold(d, node, parts[1..])
    else if parts[0] == ".." then WalkPanic
    else
      match d.finddir(node, parts[0])
      case None => Missing
      case Some(next) => Fold(d, next, parts[1..])
  }

  /** The mount that a path names, and where the rest of the path begins. */
  datatype Place = At(mount: nat, suffix: nat) | Nowhere | Overrun

  /** vsf_get_mount */
  function MountOf(mounts: seq<Mount>, path: CString): (p: Place)
    ensures p.At? ==> p.mount < |mounts| && p.suffix <= |path|
  {
    var colon := Cut(path, ':');
    if colon == |path| then Nowhere
    else if colon > PREFIX then Overrun
    else
      var m := First(MountsNamed(mounts, path[..colon]));
      if m == |mounts| then Nowhere else At(m, colon + 1)
  }

  /** vfs_get_node_from_path */
  function WalkPath(d: Drivers, mounts: seq<Mount>, path: CString): Walk {
    match MountOf(mounts, path)
    case Nowhere => Missing
    case Overrun => WalkFault
    case At(m, i) =>
      if i == |path| || path[i] != '/' then Missing
      else if mounts[m].supernode.None? then WalkFault
      else Fold(d, mounts[m].supernode.value, Components(path[i + 1..]))
  }

  /** The string without a separator at its front. */
  function SkipSlash(s: CString): CString {
    if |s| > 0 && s[0] == '/' then s[1..] else s
  }

  lemma NextComponent(s: CString)
    requires |s| > 0
    ensures var t, i := SkipSlash(s), Cut(SkipSlash(s), '/');
            && Components(s) == [t[..i]] + Components(t[i..])
            && |t[i..]| < |s|
  {
    var t, i := SkipSlash(s), Cut(SkipSlash(s), '/');
    if i < |t| {
      assert t[i..][1..] == t[i + 1..];
    } else {
      assert t[..i] == t;
    }
  }

  /** One round of the loop of the walk. */
  lemma FoldNext(d: Drivers, node: Node, s: CString)
    requires |s| > 0
    ensures var t, i := SkipSlash(s), Cut(SkipSlash(s), '/');
            && |t[i..]| < |s|
            && Fold(d, node, Components(s)) ==
               if !IsDirectory(node) then Missing
               else if i > COMPONENT then WalkFault
               else if t[..i] == "." then Fold(d, node, Components(t[i..]))
               else if t[..i] == ".." then WalkPanic
               else if d.finddir(node, t[..i]).None? then Missing
               else Fold(d, d.finddir(node, t[..i]).value, Components(t[i..]))
  {
    NextComponent(s);
    hide Components, Cut, SkipSlash;
    var t, i := SkipSlash(s), Cut(SkipSlash(s), '/');
    assert Components(s)[0] == t[..i] && Components(s)[1..] == Components(t[i..]);
  }

  /** The pieces of a path that is made of names are those names. */
  lemma {:induction false} SplitJoin(parts: seq<CString>)
    requires |parts| > 0 && forall i :: 0 <= i < |parts| ==> '/' !in parts[i]
    ensures Split(Join(parts)) == parts
    decreases |parts|
  {
    if |parts| == 1 {
      CutAt(parts[0], '/', |parts[0]|);
    } else {
      SplitJoin(parts[1..]);
      JoinFirst(parts);
      SplitAt(Join(parts), |parts[0]|);
      hide Join, Split;
      assert parts == [parts[0]] + parts[1..];
    }
  }

  lemma SplitAt(s: CString, i: nat)
    requires i < |s| && s[i] == '/' && forall j :: 0 <= j < i ==> s[j] != '/'
    ensures Split(s) == [s[..i]] + Split(s[i + 1..])
  {
    CutAt(s, '/', i);
    hide Cut;
  }

  lemma JoinFirst(parts: seq<CString>)
    requires |parts| > 1
    requires '/' !in parts[0]
    ensures var s, i := Join(parts), |parts[0]|;
            && i < |s| && s[i] == '/' && s[..i] == parts[0] && s[i + 1..] == Join(parts[1..])
            && forall j :: 0 <= j < i ==> s[j] != '/'
  {
    var rest := Join(parts[1..]);
    var s := Join(parts);
    assert s == parts[0] + "/" + rest;
    hide Join;
    assert forall j :: 0 <= j < |parts[0]| ==> s[j] == parts[0][j];
  }

  lemma {:induction false} JoinSplit(s: CString)
    ensures Join(Split(s)) == s
    decreases |s|
  {
    hide Join, Split, Cut;
    var i := Cut(s, '/');
    JoinCut(s, i);
    if i < |s| {
      JoinSplit(s[i + 1..]);
      assert s == s[..i] + "/" + s[i + 1..];
    }
  }

  /** What joining does with the first piece of a path. */
  lemma JoinCut(s: CString, i: nat)
    requires i == Cut(s, '/')
    ensures i <= |s| && (i < |s| ==> s[i] == '/')
    ensures Join(Split(s)) == if i == |s| then s else s[..i] + "/" + Join(Split(s[i + 1..]))
  {
    hide Cut, Split, Join;
    SplitOnce(s, i);
    if i < |s| {
      JoinOnce(s[..i], Split(s[i + 1..]));
    } else {
      JoinOne(s);
    }
  }

  lemma SplitOnce(s: CString, i: nat)
    requires i == Cut(s, '/')
    ensures i <= |s| && Split(s) == if i == |s| then [s] else [s[..i]] + Split(s[i + 1..])
  {
    hide Cut;
    if i < |s| {
      var rest := Split(s[i + 1..]);
      assert Split(s) == [s[..i]] + rest;
    }
  }

  lemma JoinOnce(part: CString, rest: seq<CString>)
    requires |rest| > 0
    ensures Join([part] + rest) == part + "/" + Join(rest)
  {
    assert ([part] + rest)[1..] == rest;
  }

  lemma JoinOne(part: CString)
    ensures Join([part]) == part
  {
  }

  /** One step of a walk from a node to a node. */
  ghost predicate StepTo(d: Drivers, from: Node, part: CString, to: Node) {
    && from.flags % 8 == 2 && |part| <= 254 && part != ".."
    && if part == "." then to == from else d.finddir(from, part) == Some(to)
  }

  /** The nodes that a walk passes. */
  ghost predicate Trail(d: Drivers, nodes: seq<Node>, parts: seq<CString>) {
    && |nodes| == |parts| + 1
    && forall i :: 0 <= i < |parts| ==> StepTo(d, nodes[i], parts[i], nodes[i + 1])
  }

  /** There is no way on: not a directory, or no such entry. */
  ghost predicate Blocked(d: Drivers, from: Node, part: CString) {
    from.flags % 8 != 2 || (|part| <= 254 && part != "." && part != ".." && d.finddir(from, part) == None)
  }

  /** A walk arrives exactly at the end of a trail of directories and entries. */
  lemma {:induction false} FoldFinds(d: Drivers, node: Node, parts: seq<CString>, target: Node)
    ensures Fold(d, node, parts) == Found(target) <==>
            exists nodes :: Trail(d, nodes, parts) && nodes[0] == node && nodes[|parts|] == target
    decreases |parts|
  {
    if |parts| == 0 {
      assert Fold(d, node, parts) == Found(target) ==> Trail(d, [node], parts);
    } else {
      forall next | StepTo(d, node, parts[0], next)
        ensures Fold(d, node, parts) == Fold(d, next, parts[1..])
        ensures Fold(d, next, parts[1..]) == Found(target) <==>
                exists nodes :: Trail(d, nodes, parts) && nodes[0] == node && nodes[|parts|] == target
      {
        FoldFinds(d, next, parts[1..], target);
        TrailTail(d, node, next, parts, target);
      }
      if nodes :| Trail(d, nodes, parts) && nodes[0] == node && nodes[|parts|] == target {
        assert StepTo(d, node, parts[0], nodes[1]);
      }
      if Fold(d, node, parts) == Found(target) {
        var next := if parts[0] == "." then node else d.finddir(node, parts[0]).value;
        assert StepTo(d, node, parts[0], next);
      }
    }
  }

  lemma TrailTail(d: Drivers, node: Node, next: Node, parts: seq<CString>, target: Node)
    requires |parts| > 0 && StepTo(d, node, parts[0], next)
    ensures (exists nodes :: Trail(d, nodes, parts[1..]) && nodes[0] == next && nodes[|parts| - 1] == target) <==>
            (exists nodes :: Trail(d, nodes, parts) && nodes[0] == node && nodes[|parts|] == target)
  {
    if nodes :| Trail(d, nodes, parts[1..]) && nodes[0] == next && nodes[|parts| - 1] == target {
      var all := [node] + nodes;
      forall i | 0 <= i < |parts| ensures StepTo(d, all[i], parts[i], all[i + 1]) {
        if i > 0 {
          assert StepTo(d, nodes[i - 1], parts[1..][i - 1], nodes[i]);
        }
      }
      assert Trail(d, all, parts);
    }
    if nodes :| Trail(d, nodes, parts) && nodes[0] == node && nodes[|parts|] == target {
      assert StepTo(d, node, parts[0], nodes[1]);
      var rest := nodes[1..];
      forall i | 0 <= i < |parts| - 1 ensures StepTo(d, rest[i], parts[1..][i], rest[i + 1]) {
        assert StepTo(d, nodes[i + 1], parts[i + 1], nodes[i + 2]);
      }
      assert Trail(d, rest, parts[1..]);
    }
  }

  /** After k components the walk has come to a place from which there is no way on. */
  ghost predicate BlockedAt(d: Drivers, node: Node, parts: seq<CString>, k: nat) {
    && k < |parts|
    && var w := Fold(d, node, parts[..k]);
    w.Found? && Blocked(d, w.node, parts[k])
  }

  lemma BlockedLater(d: Drivers, node: Node, next: Node, parts: seq<CString>, k: nat)
    requires |parts| > 0 && StepTo(d, node, parts[0], next) && k > 0
    ensures BlockedAt(d, node, parts, k) <==> BlockedAt(d, next, parts[1..], k - 1)
  {
    if k < |parts| {
      assert parts[..k][1..] == parts[1..][..k - 1];
    }
  }

  lemma BlockedFirst(d: Drivers, node: Node, parts: seq<CString>)
    requires |parts| > 0
    ensures BlockedAt(d, node, parts, 0) <==> Blocked(d, node, parts[0])
  {
    assert parts[..0] == [];
  }

  lemma Stuck(d: Drivers, node: Node, parts: seq<CString>, k: nat)
    requires 0 < k <= |parts| && !Fold(d, node, parts[..1]).Found?
    ensures !Fold(d, node, parts[..k]).Found?
  {
    assert parts[..k][0] == parts[0] == parts[..1][0];
  }

  /** A walk fails exactly when some component cannot be passed: not in a directory, or no such
      entry in it. */
  lemma {:induction false} FoldMisses(d: Drivers, node: Node, parts: seq<CString>)
    ensures Fold(d, node, parts) == Missing <==> exists k :: BlockedAt(d, node, parts, k)
    decreases |parts|
  {
    if |parts| > 0 {
      BlockedFirst(d, node, parts);
      if next :| StepTo(d, node, parts[0], next) {
        FoldMisses(d, next, parts[1..]);
        MissLater(d, node, next, parts);
      } else {
        NoStep(d, node, parts);
        forall k: nat | k > 0 ensures !BlockedAt(d, node, parts, k) {
          if k < |parts| {
            Stuck(d, node, parts, k);
          }
        }
      }
    }
  }

  lemma MissLater(d: Drivers, node: Node, next: Node, parts: seq<CString>)
    requires |parts| > 0 && StepTo(d, node, parts[0], next)
    ensures (exists k :: BlockedAt(d, next, parts[1..], k)) <==> exists k :: BlockedAt(d, node, parts, k)
  {
    BlockedFirst(d, node, parts);
    if k: nat :| BlockedAt(d, next, parts[1..], k) {
      BlockedLater(d, node, next, parts, k + 1);
    }
    if k: nat :| BlockedAt(d, node, parts, k) {
      if k > 0 {
        BlockedLater(d, node, next, parts, k);
      }
    }
  }

  lemma NoStep(d: Drivers, node: Node, parts: seq<CString>)
    requires |parts| > 0 && forall next :: !StepTo(d, node, parts[0], next)
    ensures !Fold(d, node, parts[..1]).Found?
    ensures Fold(d, node, parts) == Missing <==> Blocked(d, node, parts[0])
  {
    assert !StepTo(d, node, parts[0], node);
    if IsDirectory(node) && d.finddir(node, parts[0]).Some? {
      assert !StepTo(d, node, parts[0], d.finddir(node, parts[0]).value);
    }
  }
}
