// The mount table and the table of file systems of source/kernel/vfs.c over whole runs.
module VfsTables {
  import opened CStrings
  import opened VfsModel

  // ---------------------------------------------------------------------------
  // The operations

  /** vfs_register_filesystem */
  function Register(t: Tables, tag: CString, hasMount: bool): (Tables, bool) {
    var i := First(FreeSystems(t.systems));
    if i == |t.systems| then (t, false)
    else (t.(systems := t.systems[i := System(true, tag, hasMount, 0)]), true)
  }

  /** vfs_unregister_filesystem */
  function Unregister(t: Tables, tag: CString): (Tables, bool) {
    var i := First(SystemsWith(t.systems, tag));
    if i == |t.systems| || t.systems[i].mountCount > 0 then (t, false)
    else (t.(systems := t.systems[i := t.systems[i].(enabled := false)]), true)
  }

  datatype Lookup = Device(dev: Option<nat>) | NoDevice(outcome: Outcome)

  /** The device of a mount: the walk to it, its type, and its driver. */
  function FindDevice(d: Drivers, mounts: seq<Mount>, path: Option<CString>): (l: Lookup)
    ensures l.NoDevice? ==> l.outcome != Success
  {
    if path.None? then Device(None)
    else
      match WalkPath(d, mounts, path.value)
      case Missing => NoDevice(Failure)
      case WalkPanic => NoDevice(Panic)
      case WalkFault => NoDevice(Fault)
      case Found(node) =>
        if node.flags % 8 != FS_BLOCKDEVICE then NoDevice(Failure)
        else
          var dev := d.device(node.major, node.minor);
          if dev.None? then NoDevice(Failure) else Device(dev)
  }

  /** What sys_mount does up to the choice of a slot. */
  datatype Choice = Chosen(slot: nat, system: nat, dev: Option<nat>) | Refused(outcome: Outcome)

  function Choose(d: Drivers, t: Tables, r: Request): (c: Choice)
    ensures c.Chosen? ==> c.slot < |t.mounts| && c.system < |t.systems| && t.systems[c.system].enabled
    ensures c.Chosen? ==> |r.name| <= MOUNT_NAME
    ensures c.Chosen? ==> !t.mounts[c.slot].enabled || (r.remount && t.mounts[c.slot].name == r.name)
    ensures c.Chosen? ==> forall j :: 0 <= j < c.slot ==>
              t.mounts[j].enabled && (r.remount ==> t.mounts[j].name != r.name)
    ensures c.Chosen? && !r.remount ==> forall j :: 0 <= j < |t.mounts| && t.mounts[j].enabled ==>
              t.mounts[j].name != r.name
    ensures c.Refused? ==> c.outcome != Success
  {
    var s := First(SystemsWith(t.systems, r.tag));
    if s == |t.systems| then Refused(Failure)
    else if !r.remount && First(MountsNamed(t.mounts, r.name)) < |t.mounts| then Refused(Failure)
    else
      match FindDevice(d, t.mounts, r.device)
      case NoDevice(outcome) => Refused(outcome)
      case Device(dev) =>
        var i := First(SlotsFor(t.mounts, r.name, r.remount));
        if i == |t.mounts| then Refused(Failure)
        else if |r.name| > MOUNT_NAME then Refused(Fault)
        else Chosen(i, s, dev)
  }

  /** What sys_mount does with the slot. */
  function Populate(d: Drivers, t: Tables, r: Request, c: Choice): (Tables, Outcome)
    requires c.Chosen? && c.slot < |t.mounts| && c.system < |t.systems|
  {
    var system := t.systems[c.system].(mountCount := t.systems[c.system].mountCount + 1);
    var mount := t.mounts[c.slot].(name := r.name, system := c.system, dev := c.dev);
    var t1 := Tables(t.systems[c.system := system], t.mounts[c.slot := mount]);
    if !system.hasMount then (t1, Failure)
    else
      var node := d.mountOp(c.system, r.name, c.dev, r.path);
      if node.None? then (t1.(mounts := t1.mounts[c.slot := mount.(supernode := None)]), Failure)
      else (t1.(mounts := t1.mounts[c.slot := mount.(supernode := node, enabled := true)]), Success)
  }

  /** sys_mount */
  function Mounted(d: Drivers, t: Tables, r: Request): (Tables, Outcome) {
    var c := Choose(d, t, r);
    if c.Refused? then (t, c.outcome) else Populate(d, t, r, c)
  }

  // ---------------------------------------------------------------------------
  // The invariant

  function Uses(m: Mount, s: nat): nat {
    if m.enabled && m.system == s then 1 else 0
  }

  function CountUsing(mounts: seq<Mount>, s: nat): nat {
    if |mounts| == 0 then 0 else Uses(mounts[0], s) + CountUsing(mounts[1..], s)
  }

  lemma {:induction false} CountUpdate(mounts: seq<Mount>, i: nat, m: Mount, s: nat)
    requires i < |mounts|
    ensures CountUsing(mounts[i := m], s) + Uses(mounts[i], s) == CountUsing(mounts, s) + Uses(m, s)
  {
    if i == 0 {
      assert mounts[i := m][1..] == mounts[1..];
    } else {
      assert mounts[i := m][1..] == mounts[1..][i - 1 := m];
      CountUpdate(mounts[1..], i - 1, m, s);
    }
  }

  lemma {:induction false} CountAtLeast(mounts: seq<Mount>, i: nat, s: nat)
    requires i < |mounts|
    ensures CountUsing(mounts, s) >= Uses(mounts[i], s)
  {
    if i > 0 {
      CountAtLeast(mounts[1..], i - 1, s);
    }
  }

  /** The enabled slots form a prefix of the mount table. */
  ghost predicate Prefix(mounts: seq<Mount>) {
    forall i, j :: 0 <= i < j < |mounts| && mounts[j].enabled ==> mounts[i].enabled
  }

  /** No two enabled mounts have the same name. */
  ghost predicate Distinct(mounts: seq<Mount>) {
    forall i, j :: 0 <= i < j < |mounts| && mounts[i].enabled && mounts[j].enabled ==> mounts[i].name != mounts[j].name
  }

  /** No enabled mount belongs to a file system that is not registered. */
  ghost predicate Registered(t: Tables) {
    forall i :: 0 <= i < |t.mounts| && t.mounts[i].enabled ==>
      t.mounts[i].system < |t.systems| && t.systems[t.mounts[i].system].enabled
  }

  /** A file system counts at least the enabled mounts that belong to it. */
  ghost predicate Counted(t: Tables) {
    forall s :: 0 <= s < |t.systems| && t.systems[s].enabled ==> t.systems[s].mountCount >= CountUsing(t.mounts, s)
  }

  ghost predicate Inv(t: Tables) {
    && |t.systems| == MAX_FILESYSTEMS && |t.mounts| == MAX_MOUNTS
    && Prefix(t.mounts) && Distinct(t.mounts) && Registered(t) && Counted(t)
  }

  lemma RegisterKeeps(t: Tables, tag: CString, hasMount: bool)
    requires Inv(t)
    ensures Inv(Register(t, tag, hasMount).0)
  {
    hide CountUsing, Prefix, Distinct;
    var i := First(FreeSystems(t.systems));
    if i < |t.systems| {
      assert !t.systems[i].enabled;
      NoneUsing(t.mounts, i);
    }
  }

  lemma {:induction false} NoneUsing(mounts: seq<Mount>, s: nat)
    requires forall i :: 0 <= i < |mounts| ==> Uses(mounts[i], s) == 0
    ensures CountUsing(mounts, s) == 0
  {
    if |mounts| > 0 {
      NoneUsing(mounts[1..], s);
    }
  }

  lemma UnregisterKeeps(t: Tables, tag: CString)
    requires Inv(t)
    ensures Inv(Unregister(t, tag).0)
  {
    hide CountUsing, Prefix, Distinct;
    var s := First(SystemsWith(t.systems, tag));
    if s < |t.systems| && t.systems[s].mountCount <= 0 {
      forall i | 0 <= i < |t.mounts| && t.mounts[i].enabled ensures t.mounts[i].system != s {
        CountAtLeast(t.mounts, i, s);
      }
    }
  }

  lemma MountKeeps(d: Drivers, t: Tables, r: Request)
    requires Inv(t)
    ensures Inv(Mounted(d, t, r).0)
  {
    hide CountUsing, Choose;
    var c := Choose(d, t, r);
    if c.Chosen? {
      var t' := Populate(d, t, r, c).0;
      forall s | 0 <= s < |t.systems| && t.systems[s].enabled
        ensures t'.systems[s].mountCount >= CountUsing(t'.mounts, s)
      {
        CountUpdate(t.mounts, c.slot, t'.mounts[c.slot], s);
        assert t'.mounts == t.mounts[c.slot := t'.mounts[c.slot]];
      }
    }
  }

  // ---------------------------------------------------------------------------
  // Runs

  datatype Step =
    | RegisterStep(tag: CString, hasMount: bool)
    | UnregisterStep(tag: CString)
    | MountStep(drivers: Drivers, request: Request)

  function Do(t: Tables, s: Step): Tables {
    match s
    case RegisterStep(tag, hasMount) => Register(t, tag, hasMount).0
    case UnregisterStep(tag) => Unregister(t, tag).0
    case MountStep(d, r) => Mounted(d, t, r).0
  }

  /** The step ends, neither in a panic nor in what C leaves undefined: only the outcome of a mount
      can be one of these. */
  predicate Ends(t: Tables, s: Step) {
    match s
    case MountStep(d, r) => !Mounted(d, t, r).1.Panic? && !Mounted(d, t, r).1.Fault?
    case _ => true
  }

  predicate CanRun(t: Tables, steps: seq<Step>)
    decreases |steps|
  {
    |steps| == 0 || (Ends(t, steps[0]) && CanRun(Do(t, steps[0]), steps[1..]))
  }

  function RunAll(t: Tables, steps: seq<Step>): Tables
    requires CanRun(t, steps)
    decreases |steps|
  {
    if |steps| == 0 then t else RunAll(Do(t, steps[0]), steps[1..])
  }

  /** vfs_init */
  function Empty(): Tables {
    Tables(seq(MAX_FILESYSTEMS, i => System(false, "", false, 0)),
           seq(MAX_MOUNTS, i => Mount(false, "", 0, None, None)))
  }

  /** In every run from the empty tables, with failed mounts and remounts among the steps: the
      enabled slots form a prefix, their names differ, and no enabled mount belongs to a file system
      that has been unregistered. */
  lemma RunInv(steps: seq<Step>)
    requires CanRun(Empty(), steps)
    ensures Inv(RunAll(Empty(), steps))
  {
    assert Inv(Empty()) by {
      hide CountUsing;
    }
    RunKeeps(Empty(), steps);
  }

  lemma {:induction false} RunKeeps(t: Tables, steps: seq<Step>)
    requires Inv(t) && CanRun(t, steps)
    ensures Inv(RunAll(t, steps))
    decreases |steps|
  {
    hide Inv;
    if |steps| > 0 {
      match steps[0] {
        case RegisterStep(tag, hasMount) => RegisterKeeps(t, tag, hasMount);
        case UnregisterStep(tag) => UnregisterKeeps(t, tag);
        case MountStep(d, r) => MountKeeps(d, t, r);
      }
      RunKeeps(Do(t, steps[0]), steps[1..]);
    }
  }

  // ---------------------------------------------------------------------------
  // What a mount is good for

  /** The lookup by name finds the only enabled mount of that name. */
  lemma LookupUnique(t: Tables, name: CString, i: nat)
    requires Inv(t) && i < |t.mounts|
    ensures First(MountsNamed(t.mounts, name)) == i <==> t.mounts[i].enabled && t.mounts[i].name == name
  {
    hide First;
  }

  /** After a successful mount its name leads to the node that its file system handed out. */
  lemma MountFound(d: Drivers, t: Tables, r: Request)
    requires Inv(t) && Mounted(d, t, r).1 == Success
    ensures Choose(d, t, r).Chosen?
    ensures var c, mounts := Choose(d, t, r), Mounted(d, t, r).0.mounts;
            var node := d.mountOp(c.system, r.name, c.dev, r.path);
            && First(MountsNamed(mounts, r.name)) == c.slot
            && c.slot < |mounts| && node.Some? && mounts[c.slot].supernode == node
  {
    hide Choose, First;
    var c, t' := Choose(d, t, r), Mounted(d, t, r).0;
    MountKeeps(d, t, r);
    LookupUnique(t', r.name, c.slot);
  }

  /** Paths made of names start at that node, whatever the drivers answer later on. */
  lemma MountThenWalk(d: Drivers, t: Tables, r: Request, d': Drivers, parts: seq<CString>)
    requires Inv(t) && Mounted(d, t, r).1 == Success && ':' !in r.name
    requires |parts| > 0 && (forall i :: 0 <= i < |parts| ==> '/' !in parts[i]) && |parts[0]| > 0
    ensures Choose(d, t, r).Chosen?
    ensures var c := Choose(d, t, r);
            var node := d.mountOp(c.system, r.name, c.dev, r.path);
            node.Some? &&
            WalkPath(d', Mounted(d, t, r).0.mounts, r.name + ":/" + Join(parts)) == Fold(d', node.value, parts)
  {
    hide Choose, First, Mounted, Fold, Split, MountsNamed;
    MountFound(d, t, r);
    var path := r.name + ":/" + Join(parts);
    assert path[..|r.name|] == r.name;
    assert forall j :: 0 <= j < |r.name| ==> path[j] == r.name[j];
    CutAt(path, ':', |r.name|);
    assert path[|r.name| + 2..] == Join(parts);
    SplitJoin(parts);
    JoinStart(parts);
  }

  lemma JoinStart(parts: seq<CString>)
    requires |parts| > 0 && '/' !in parts[0] && |parts[0]| > 0
    ensures |Join(parts)| > 0 && Join(parts)[0] != '/'
  {
  }

  /** A mount, successful or not, does not touch the mounts of other names. */
  lemma MountOthers(d: Drivers, t: Tables, r: Request, i: nat)
    requires i < |t.mounts| && t.mounts[i].enabled && t.mounts[i].name != r.name
    ensures Mounted(d, t, r).0.mounts[i] == t.mounts[i]
  {
    hide Choose;
  }

  // ---------------------------------------------------------------------------
  // Failed remounts

  /** Every enabled mount has a node to start a walk from. */
  ghost predicate Supernodes(mounts: seq<Mount>) {
    forall i :: 0 <= i < |mounts| && mounts[i].enabled ==> mounts[i].supernode.Some?
  }

  /** A remount of an enabled mount whose file system does not hand out a node. */
  predicate FailedRemount(d: Drivers, t: Tables, r: Request) {
    var c := Choose(d, t, r);
    c.Chosen? && t.mounts[c.slot].enabled && t.systems[c.system].hasMount &&
    d.mountOp(c.system, r.name, c.dev, r.path).None?
  }

  /** Exactly a failed remount takes the node of an enabled mount away. */
  lemma SupernodesKept(d: Drivers, t: Tables, r: Request)
    requires Supernodes(t.mounts)
    ensures Supernodes(Mounted(d, t, r).0.mounts) <==> !FailedRemount(d, t, r)
  {
    hide Choose;
    if FailedRemount(d, t, r) {
      var c := Choose(d, t, r);
      assert Mounted(d, t, r).0.mounts[c.slot].enabled && Mounted(d, t, r).0.mounts[c.slot].supernode.None?;
    }
  }

  /** Drivers whose mount operation always gives the same answer. */
  function Answering(d: Drivers, answer: Option<Node>): Drivers {
    d.(mountOp := (s, n, dev, p) => answer)
  }

  /** A mount that works, a remount that fails, and a walk that goes wrong. */
  lemma RemountBreaksWalk(d: Drivers, node: Node)
    ensures var works, fails := Answering(d, Some(node)), Answering(d, None);
            var r := Request(None, "FAT12", "A", "/", false);
            var t1 := Register(Empty(), "FAT12", true).0;
            var t2 := Mounted(works, t1, r).0;
            var t3 := Mounted(fails, t2, r.(remount := true)).0;
            && WalkPath(works, t2.mounts, "A:/") == Found(node)
            && WalkPath(works, t3.mounts, "A:/") == WalkFault
  {
    var works, fails := Answering(d, Some(node)), Answering(d, None);
    hide Empty, First;
    var e := Empty();
    var r := Request(None, "FAT12", "A", "/", false);
    FirstHere(FreeSystems(e.systems), 0);
    var t1 := Register(e, "FAT12", true).0;
    FirstHere(SystemsWith(t1.systems, "FAT12"), 0);
    FirstHere(MountsNamed(e.mounts, "A"), |e.mounts|);
    FirstHere(SlotsFor(e.mounts, "A", false), 0);
    var t2 := Mounted(works, t1, r).0;
    FirstHere(SystemsWith(t2.systems, "FAT12"), 0);
    FirstHere(SlotsFor(t2.mounts, "A", true), 0);
    FirstHere(MountsNamed(t2.mounts, "A"), 0);
    var t3 := Mounted(fails, t2, r.(remount := true)).0;
    FirstHere(MountsNamed(t3.mounts, "A"), 0);
    CutAt("A:/", ':', 1);
  }
}
