// The virtual file system of source/kernel/vfs.c: its two tables, changed in place.
module Vfs {
  import opened CStrings
  import opened VfsModel
  import opened VfsTables

  class VirtualFileSystem {
    const systems: array<System>
    const mounts: array<Mount>

    /** vfs_init */
    constructor ()
      ensures fresh(systems) && fresh(mounts) && TheTables() == Empty() && systems.Length == 100 && mounts.Length == 255
    {
      systems := new System[MAX_FILESYSTEMS](i => System(false, "", false, 0));
      mounts := new Mount[MAX_MOUNTS](i => Mount(false, "", 0, None, None));
      new;
      assert systems[..] == Empty().systems && mounts[..] == Empty().mounts;
    }

    ghost function TheTables(): Tables
      reads systems, mounts
    {
      Tables(systems[..], mounts[..])
    }

    /** vfs_register_filesystem */
    method RegisterFilesystem(tag: CString, hasMount: bool) returns (ok: bool)
      modifies systems
      ensures (TheTables(), ok) == Register(old(TheTables()), tag, hasMount)
    {
      hide First;
      ghost var t := TheTables();
      var i := 0;
      while i != systems.Length
        invariant i <= systems.Length && systems[..] == t.systems
        invariant forall j :: 0 <= j < i ==> !FreeSystems(t.systems)[j]
        decreases systems.Length - i
      {
        if systems[i].enabled {
          i := i + 1;
          continue;
        }
        FirstHere(FreeSystems(t.systems), i);
        systems[i] := System(true, tag, hasMount, 0);
        assert systems[..] == t.systems[i := System(true, tag, hasMount, 0)];
        return true;
      }
      FirstHere(FreeSystems(t.systems), i);
      return false;
    }

    /** vfs_get_vfs_system: the place of the first file system with a tag, or the end of the table. */
    method GetSystem(tag: CString) returns (i: nat)
      ensures i == First(SystemsWith(systems[..], tag))
    {
      hide First;
      ghost var marks := SystemsWith(systems[..], tag);
      i := 0;
      while i != systems.Length
        invariant i <= systems.Length && forall j :: 0 <= j < i ==> !marks[j]
        decreases systems.Length - i
      {
        if systems[i].enabled && systems[i].tag == tag {
          break;
        }
        i := i + 1;
      }
      FirstHere(marks, i);
    }

    /** vfs_unregister_filesystem */
    method UnregisterFilesystem(tag: CString) returns (ok: bool)
      modifies systems
      ensures (TheTables(), ok) == Unregister(old(TheTables()), tag)
    {
      hide First;
      ghost var t := TheTables();
      var i := GetSystem(tag);
      if i == systems.Length || systems[i].mountCount > 0 {
        return false;
      }
      systems[i] := systems[i].(enabled := false);
      assert systems[..] == t.systems[i := t.systems[i].(enabled := false)];
      return true;
    }

    /** The loop of vsf_get_mount and the first loop of sys_mount. */
    method FindMount(name: CString) returns (i: nat)
      ensures i == First(MountsNamed(mounts[..], name))
    {
      hide First;
      ghost var marks := MountsNamed(mounts[..], name);
      i := 0;
      while i != mounts.Length
        invariant i <= mounts.Length && forall j :: 0 <= j < i ==> !marks[j]
        decreases mounts.Length - i
      {
        if mounts[i].enabled && mounts[i].name == name {
          break;
        }
        i := i + 1;
      }
      FirstHere(marks, i);
    }

    /** vsf_get_mount */
    method GetMount(path: CString) returns (p: Place)
      ensures p == MountOf(mounts[..], path)
    {
      hide First, MountsNamed;
      var len := 0;
      while CharAt(path, len) != ':' && CharAt(path, len) != '\0'
        invariant len <= |path| && forall j :: 0 <= j < len ==> path[j] != ':'
        decreases |path| - len
      {
        len := len + 1;
      }
      assert len == |path| <==> CharAt(path, len) == '\0';
      CutAt(path, ':', len);
      if CharAt(path, len) == '\0' {
        return Nowhere;
      }
      if len > PREFIX {
        return Overrun;
      }
      var m := FindMount(path[..len]);
      return if m == mounts.Length then Nowhere else At(m, len + 1);
    }

    /** vfs_get_node_from_path: the walk ends on every path. */
    method GetNode(d: Drivers, path: CString) returns (w: Walk)
      ensures w == WalkPath(d, mounts[..], path)
    {
      hide Fold, Components, Cut, MountOf;
      var place := GetMount(path);
      if place.Nowhere? {
        return Missing;
      }
      if place.Overrun? {
        return WalkFault;
      }
      var c := place.suffix;
      if CharAt(path, c) != '/' {
        return Missing;
      }
      if mounts[place.mount].supernode.None? {
        return WalkFault;
      }
      var node := mounts[place.mount].supernode.value;
      c := c + 1;
      w := WalkFrom(d, path[c..], node);
    }

    /** The loop of vfs_get_node_from_path; the pointer c is what is left of the path. */
    method WalkFrom(d: Drivers, path: CString, root: Node) returns (w: Walk)
      ensures w == Fold(d, root, Components(path))
    {
      hide Components, Fold, Cut;
      var c, node := path, root;
      while CharAt(c, 0) != '\0'
        invariant Fold(d, root, Components(path)) == Fold(d, node, Components(c))
        decreases |c|
      {
        FoldNext(d, node, c);
        if CharAt(c, 0) == '/' {
          c := c[1..];
        }
        if !IsDirectory(node) {
          return Missing;
        }
        var cs := FindSlash(c);
        if cs > COMPONENT {
          return WalkFault;
        }
        var component := c[..cs];
        c := c[cs..];
        if component == "." {
          continue;
        }
        if component == ".." {
          return WalkPanic;
        }
        var next := d.finddir(node, component);
        if next.None? {
          return Missing;
        }
        node := next.value;
      }
      EmptyWalk(d, node, c);
      return Found(node);
    }

    /** The search for the end of a component. */
    static method FindSlash(c: CString) returns (cs: nat)
      ensures cs == Cut(c, '/')
    {
      cs := 0;
      while CharAt(c, cs) != '/' && CharAt(c, cs) != '\0'
        invariant cs <= |c| && forall j :: 0 <= j < cs ==> c[j] != '/'
        decreases |c| - cs
      {
        cs := cs + 1;
      }
      CutAt(c, '/', cs);
    }

    /** The device part of sys_mount. */
    method GetDevice(d: Drivers, path: Option<CString>) returns (l: Lookup)
      ensures l == FindDevice(d, mounts[..], path)
    {
      if path.None? {
        return Device(None);
      }
      var w := GetNode(d, path.value);
      match w {
        case Missing => return NoDevice(Failure);
        case WalkPanic => return NoDevice(Panic);
        case WalkFault => return NoDevice(Fault);
        case Found(node) =>
          if node.flags % 8 != FS_BLOCKDEVICE {
            return NoDevice(Failure);
          }
          var dev := d.device(node.major, node.minor);
          return if dev.None? then NoDevice(Failure) else Device(dev);
      }
    }

    /** The search of sys_mount for a slot. */
    method FindSlot(name: CString, remount: bool) returns (i: nat)
      ensures i == First(SlotsFor(mounts[..], name, remount))
    {
      hide First;
      ghost var marks := SlotsFor(mounts[..], name, remount);
      i := 0;
      while i != mounts.Length
        invariant i <= mounts.Length && forall j :: 0 <= j < i ==> !marks[j]
        decreases mounts.Length - i
      {
        if !remount {
          if mounts[i].enabled {
            i := i + 1;
            continue;
          }
        } else if mounts[i].enabled && mounts[i].name != name {
          i := i + 1;
          continue;
        }
        break;
      }
      FirstHere(marks, i);
    }

    /** The end of sys_mount: the slot is filled in. */
    method FillSlot(d: Drivers, r: Request, i: nat, s: nat, dev: Option<nat>) returns (o: Outcome)
      requires i < mounts.Length && s < systems.Length
      modifies systems, mounts
      ensures (TheTables(), o) == Populate(d, old(TheTables()), r, Chosen(i, s, dev))
    {
      ghost var t := TheTables();
      mounts[i] := mounts[i].(name := r.name, system := s, dev := dev);
      systems[s] := systems[s].(mountCount := systems[s].mountCount + 1);
      assert systems[..] == t.systems[s := t.systems[s].(mountCount := t.systems[s].mountCount + 1)];
      ghost var m := t.mounts[i].(name := r.name, system := s, dev := dev);
      assert mounts[..] == t.mounts[i := m];
      if !systems[s].hasMount {
        return Failure;
      }
      mounts[i] := mounts[i].(supernode := d.mountOp(s, r.name, dev, r.path));
      assert mounts[..] == t.mounts[i := m][i := m.(supernode := d.mountOp(s, r.name, dev, r.path))];
      if mounts[i].supernode.None? {
        return Failure;
      }
      mounts[i] := mounts[i].(enabled := true);
      assert mounts[..] == t.mounts[i := m][i := m.(supernode := d.mountOp(s, r.name, dev, r.path), enabled := true)];
      return Success;
    }

    /** sys_mount */
    method SysMount(d: Drivers, r: Request) returns (o: Outcome)
      modifies systems, mounts
      ensures (TheTables(), o) == Mounted(d, old(TheTables()), r)
    {
      hide First, Populate, FindDevice;
      var s := GetSystem(r.tag);
      if s == systems.Length {
        return Failure;
      }
      if !r.remount {
        var m := FindMount(r.name);
        if m != mounts.Length {
          return Failure;
        }
      }
      var l := GetDevice(d, r.device);
      if l.NoDevice? {
        return l.outcome;
      }
      var i := FindSlot(r.name, r.remount);
      if i == mounts.Length {
        return Failure;
      }
      if |r.name| > MOUNT_NAME {
        return Fault;
      }
      o := FillSlot(d, r, i, s, l.dev);
    }
  }

  lemma EmptyWalk(d: Drivers, node: Node, s: CString)
    requires |s| == 0
    ensures Fold(d, node, Components(s)) == Found(node)
  {
  }
}
