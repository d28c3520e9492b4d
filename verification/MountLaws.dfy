// When the calls of source/kernel/vfs.c succeed, and what they leave behind.
module MountLaws {
  import opened CStrings
  import opened VfsModel
  import opened VfsTables

  /** The first registered file system with a tag. */
  ghost predicate FirstSystem(t: Tables, tag: CString, s: nat) {
    && s < |t.systems| && t.systems[s].enabled && t.systems[s].tag == tag
    && forall j :: 0 <= j < s ==> !(t.systems[j].enabled && t.systems[j].tag == tag)
  }

  /** An enabled mount of that name. */
  ghost predicate IsMounted(t: Tables, name: CString) {
    exists i :: 0 <= i < |t.mounts| && t.mounts[i].enabled && t.mounts[i].name == name
  }

  /** The first slot that is free, or, for a remount, the mount of that name if it comes before one. */
  ghost predicate FirstPlace(t: Tables, name: CString, remount: bool, i: nat) {
    && i < |t.mounts| && (t.mounts[i].enabled ==> remount && t.mounts[i].name == name)
    && forall j :: 0 <= j < i ==> t.mounts[j].enabled && !(remount && t.mounts[j].name == name)
  }

  /** The device of a mount: none if no path is given; otherwise the path leads to a block device, which is
      of type 4, and dev is the driver of its numbers. */
  ghost predicate DeviceOf(d: Drivers, t: Tables, path: Option<CString>, dev: Option<nat>) {
    if path.None? then dev == None
    else
      var w := WalkPath(d, t.mounts, path.value);
      w.Found? && w.node.flags % 8 == 4 && dev.Some? && d.device(w.node.major, w.node.minor) == dev
  }

  /** All that a mount of file system s with device dev in slot i needs. */
  ghost predicate Mountable(d: Drivers, t: Tables, r: Request, s: nat, dev: Option<nat>, i: nat) {
    && FirstSystem(t, r.tag, s) && t.systems[s].hasMount
    && (IsMounted(t, r.name) ==> r.remount)
    && DeviceOf(d, t, r.device, dev)
    && FirstPlace(t, r.name, r.remount, i) && |r.name| <= 9
    && d.mountOp(s, r.name, dev, r.path).Some?
  }

  lemma SystemIs(t: Tables, tag: CString, s: nat)
    ensures FirstSystem(t, tag, s) <==> s < |t.systems| && First(SystemsWith(t.systems, tag)) == s
  {
    hide First;
    if FirstSystem(t, tag, s) {
      FirstHere(SystemsWith(t.systems, tag), s);
    }
  }

  lemma MountedIs(t: Tables, name: CString)
    ensures IsMounted(t, name) <==> First(MountsNamed(t.mounts, name)) < |t.mounts|
  {
    hide First;
  }

  lemma PlaceIs(t: Tables, name: CString, remount: bool, i: nat)
    ensures FirstPlace(t, name, remount, i) <==> i < |t.mounts| && First(SlotsFor(t.mounts, name, remount)) == i
  {
    hide First;
    if FirstPlace(t, name, remount, i) {
      FirstHere(SlotsFor(t.mounts, name, remount), i);
    }
  }

  lemma DeviceIs(d: Drivers, t: Tables, path: Option<CString>, dev: Option<nat>)
    ensures DeviceOf(d, t, path, dev) <==> FindDevice(d, t.mounts, path) == Device(dev)
  {
    hide WalkPath;
  }

  lemma ChoiceIs(d: Drivers, t: Tables, r: Request, s: nat, dev: Option<nat>, i: nat)
    ensures Choose(d, t, r) == Chosen(i, s, dev) <==>
              && FirstSystem(t, r.tag, s) && (IsMounted(t, r.name) ==> r.remount) && DeviceOf(d, t, r.device, dev)
              && FirstPlace(t, r.name, r.remount, i) && |r.name| <= 9
  {
    hide First, FirstSystem, IsMounted, FirstPlace, DeviceOf, FindDevice;
    SystemIs(t, r.tag, s);
    MountedIs(t, r.name);
    PlaceIs(t, r.name, r.remount, i);
    DeviceIs(d, t, r.device, dev);
  }

  /** sys_mount succeeds if and only if there is all that it needs; then the slot holds an enabled mount of
      that name, file system and device with the node that the mount operation hands out, the file system
      counts one mount more, and nothing else changes. */
  lemma MountSucceeds(d: Drivers, t: Tables, r: Request)
    ensures Mounted(d, t, r).1 == Success <==> exists s: nat, dev, i: nat :: Mountable(d, t, r, s, dev, i)
    ensures forall s: nat, dev, i: nat :: Mountable(d, t, r, s, dev, i) ==>
              && i < |t.mounts| && s < |t.systems|
              && var mount := Mount(true, r.name, s, dev, d.mountOp(s, r.name, dev, r.path));
              && Mounted(d, t, r) ==
                 (Tables(t.systems[s := t.systems[s].(mountCount := t.systems[s].mountCount + 1)],
                         t.mounts[i := mount]), Success)
  {
    hide Choose, FirstSystem, IsMounted, FirstPlace, DeviceOf;
    forall s: nat, dev, i: nat | Mountable(d, t, r, s, dev, i)
      ensures Choose(d, t, r) == Chosen(i, s, dev) && i < |t.mounts| && s < |t.systems|
    {
      ChoiceIs(d, t, r, s, dev, i);
      SystemIs(t, r.tag, s);
      PlaceIs(t, r.name, r.remount, i);
    }
    var c := Choose(d, t, r);
    if c.Chosen? {
      ChoiceIs(d, t, r, c.system, c.dev, c.slot);
      UpdateTwice(t.mounts, c.slot, t.mounts[c.slot].(name := r.name, system := c.system, dev := c.dev),
                  Mount(true, r.name, c.system, c.dev, d.mountOp(c.system, r.name, c.dev, r.path)));
      if Mounted(d, t, r).1 == Success {
        assert Mountable(d, t, r, c.system, c.dev, c.slot);
      }
    }
  }

  lemma UpdateTwice(mounts: seq<Mount>, i: nat, a: Mount, b: Mount)
    requires i < |mounts|
    ensures mounts[i := a][i := b] == mounts[i := b]
  {
  }

  /** A device path that leads to a node of any other type than 4 makes the mount fail, and changes nothing. */
  lemma OnlyBlockDevices(d: Drivers, t: Tables, r: Request, node: Node)
    requires r.device.Some? && WalkPath(d, t.mounts, r.device.value) == Found(node) && node.flags % 8 != 4
    ensures Mounted(d, t, r) == (t, Failure)
  {
    hide First, WalkPath;
  }

  /** vfs_register_filesystem succeeds if and only if a slot is free, and takes the first one. */
  lemma RegisterLaw(t: Tables, tag: CString, hasMount: bool)
    ensures Register(t, tag, hasMount).1 <==> exists i :: 0 <= i < |t.systems| && !t.systems[i].enabled
    ensures !Register(t, tag, hasMount).1 ==> Register(t, tag, hasMount).0 == t
    ensures forall i :: 0 <= i < |t.systems| && !t.systems[i].enabled &&
                        (forall j :: 0 <= j < i ==> t.systems[j].enabled) ==>
              Register(t, tag, hasMount).0 == t.(systems := t.systems[i := System(true, tag, hasMount, 0)])
  {
    hide First;
    forall i | 0 <= i < |t.systems| && !t.systems[i].enabled && (forall j :: 0 <= j < i ==> t.systems[j].enabled)
      ensures First(FreeSystems(t.systems)) == i
    {
      FirstHere(FreeSystems(t.systems), i);
    }
  }

  /** vfs_unregister_filesystem succeeds if and only if the first registered file system with the tag counts
      no mount, and frees exactly its slot. */
  lemma UnregisterLaw(t: Tables, tag: CString)
    ensures Unregister(t, tag).1 <==> exists s: nat :: FirstSystem(t, tag, s) && t.systems[s].mountCount <= 0
    ensures !Unregister(t, tag).1 ==> Unregister(t, tag).0 == t
    ensures forall s: nat :: FirstSystem(t, tag, s) && t.systems[s].mountCount <= 0 ==>
              s < |t.systems| &&
              Unregister(t, tag).0 == t.(systems := t.systems[s := t.systems[s].(enabled := false)])
  {
    hide First, FirstSystem;
    var i := First(SystemsWith(t.systems, tag));
    SystemIs(t, tag, i);
    forall s: nat | FirstSystem(t, tag, s) ensures s == i && s < |t.systems| {
      SystemIs(t, tag, s);
    }
  }

  /** What a path says about its mount: the name before the first colon, of at most ten characters, is that
      of the first enabled mount with it; a longer name overruns the buffer; a path without colon names none. */
  lemma MountOfLaw(mounts: seq<Mount>, name: CString, rest: CString)
    requires ':' !in name
    ensures MountOf(mounts, name) == Nowhere
    ensures |name| > 10 ==> MountOf(mounts, name + ":" + rest) == Overrun
    ensures |name| <= 10 ==>
              && (MountOf(mounts, name + ":" + rest) == Nowhere <==>
                  forall i :: 0 <= i < |mounts| ==> !(mounts[i].enabled && mounts[i].name == name))
              && forall i :: 0 <= i < |mounts| && mounts[i].enabled && mounts[i].name == name &&
                             (forall j :: 0 <= j < i ==> !(mounts[j].enabled && mounts[j].name == name)) ==>
                   MountOf(mounts, name + ":" + rest) == At(i, |name| + 1)
  {
    hide First, Cut;
    var path := name + ":" + rest;
    assert forall j :: 0 <= j < |name| ==> path[j] == name[j];
    CutAt(path, ':', |name|);
    CutAt(name, ':', |name|);
    assert path[..|name|] == name;
    forall i | 0 <= i < |mounts| && mounts[i].enabled && mounts[i].name == name &&
               forall j :: 0 <= j < i ==> !(mounts[j].enabled && mounts[j].name == name)
      ensures First(MountsNamed(mounts, name)) == i
    {
      FirstHere(MountsNamed(mounts, name), i);
    }
  }
}
