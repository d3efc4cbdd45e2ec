/** The mount list of kernel/core/fs.c and the calls that work on it, against MountSpec. */
module MountTable {
  import opened PathSpec
  import opened Sequences
  import opened PathNormalize
  import opened MountSpec
  import opened Options

  /** strlcpy of a C string into a buffer of FS_MAX_PATH_LEN, then fs_normalize_path on the buffer. */
  method ResolveCopy(path: string) returns (q: string)
    requires NUL !in path
    ensures q == Resolve(path) == Normalize(if |path| < 128 then path else path[..127])
  {
    var temppath := new char[FS_MAX_PATH_LEN];
    var k := if |path| < FS_MAX_PATH_LEN then |path| else FS_MAX_PATH_LEN - 1;
    for i := 0 to k
      invariant temppath[..i] == path[..i]
    {
      temppath[i] := path[i];
    }
    temppath[k] := NUL;
    assert temppath[..][..k] == path[..k];
    assert temppath[..][k] == NUL;
    CStringIs(temppath[..], k);
    assert path[..|path|] == path;
    FsNormalizePath(temppath);
    CStringEnd(temppath[..]);
    var n := 0;
    while temppath[n] != NUL
      invariant n <= |CString(temppath[..])| < temppath.Length
      decreases temppath.Length - n
    {
      assert temppath[n] == temppath[..][n];
      n := n + 1;
    }
    assert n == |CString(temppath[..])|;
    q := temppath[..n];
    assert q == temppath[..][..n];
  }

  /** The test of find_mount: memcmp on the mount's path, then a separator or the end. */
  method Matches(p: string, q: string) returns (hit: bool)
    ensures hit <==> Split(p) <= Split(q)
    ensures hit <==> Under(p, q)
    ensures hit ==> p <= q
  {
    UnderIsPrefix(p, q);
    if |q| < |p| { return false; }
    if q[..|p|] != p { return false; }
    hit := |q| == |p| || q[|p|] == '/';
  }

  class FsTable {
    var mounts: seq<nat>
    var info: map<nat, Mount>
    var handles: map<nat, nat>
    ghost var unmounts: map<nat, nat>

    ghost function View(): Fs reads this { Fs(mounts, info, handles, unmounts) }

    constructor ()
      ensures View() == EMPTY
    {
      mounts, info, handles, unmounts := [], map[], map[], map[];
    }

    /** find_mount: counts a reference on the mount it returns; rest is the path inside that mount. */
    method FindMount(q: string) returns (m: Option<nat>, rest: string)
      requires Listed(View())
      modifies this`info
      ensures m == Find(old(View()), q)
      ensures m.None? ==> View() == old(View())
      ensures m.Some? ==>
        var p := old(info)[m.value].path;
        View() == AddRef(old(View()), m.value, 1) && p <= q && rest == if |q| == |p| then "/" else q[|p|..]
      ensures m.Some? ==> Absolute(q) && m.value in mounts && Split(old(info)[m.value].path) <= Split(q)
      ensures m.None? && Absolute(q) ==> forall x :: x in mounts ==> !(Split(info[x].path) <= Split(q))
    {
      m, rest := None, "";
      if q == "" || q[0] != '/' { return; }
      var k := Search(q);
      FirstMatchAt(mounts, info, q, k);
      if k == |mounts| { return; }
      var mount := info[mounts[k]];
      rest := q[|mount.path|..];
      if rest == "" { rest := "/"; }
      m := Some(mounts[k]);
      info := info[mounts[k] := mount.(ref := mount.ref + 1)];
    }

    /** The loop of find_mount: the position of the first mount that matches, or the length of the list. */
    method Search(q: string) returns (k: nat)
      requires Listed(View())
      ensures k <= |mounts|
      ensures k < |mounts| ==> info[mounts[k]].path <= q && Split(info[mounts[k]].path) <= Split(q)
      ensures forall j :: 0 <= j < k ==> !(Split(info[mounts[j]].path) <= Split(q))
    {
      hide Split, Under;
      k := 0;
      while k < |mounts|
        invariant k <= |mounts|
        invariant forall j :: 0 <= j < k ==> !(Split(info[mounts[j]].path) <= Split(q))
      {
        var hit := Matches(info[mounts[k]].path, q);
        if hit { return; }
        k := k + 1;
      }
    }

    /** put_mount. */
    method PutMount(m: nat)
      requires m in info
      modifies this`info, this`mounts
      ensures View() == Put(old(View()), m)
    {
      info := info[m := info[m].(ref := info[m].ref - 1)];
      if info[m].ref == 0 {
        DeleteNode(m);
        info := info - {m};
      }
    }

    /** list_delete of the mount's node. */
    method DeleteNode(m: nat)
      modifies this`mounts
      ensures mounts == Without(old(mounts), m)
    {
      var k := 0;
      while k < |mounts| && mounts[k] != m
        invariant k <= |mounts| && m !in mounts[..k]
      {
        k := k + 1;
      }
      if k < |mounts| {
        WithoutFirst(mounts, k);
        mounts := mounts[..k] + mounts[k + 1..];
      } else {
        assert mounts[..k] == mounts;
        WithoutAbsent(mounts, m);
      }
    }

    method FsMount(path: string, addr: nat, env: MountEnv) returns (err: int)
      requires NUL !in path && TableInv(View()) && addr !in info
      modifies this
      ensures (View(), err) == DoMount(old(View()), Resolve(path), addr, env) && TableInv(View())
    {
      var q := ResolveCopy(path);
      MountKeepsTable(View(), q, addr, env);
      if q == "" || q[0] != '/' { return ERR_INVAL; }
      var m, _ := FindMount(q);
      if m.Some? {
        PutMount(m.value);
        RefBack(old(View()), m.value);
        return ERR_INVAL;
      }
      if !env.deviceOk { return ERR_NO_DEV; }
      if env.apiResult < 0 { return env.apiResult; }
      if !env.allocOk { return ERR_NO_MEM; }
      info := info[addr := Mount(q, 1)];
      unmounts := unmounts[addr := 0];
      mounts := [addr] + mounts;
      return 0;
    }

    method FsUnmount(path: string) returns (err: int)
      requires NUL !in path && TableInv(View())
      modifies this
      ensures (View(), err) == DoUnmount(old(View()), Resolve(path)) && TableInv(View())
    {
      ghost var fs := View();
      var q := ResolveCopy(path);
      err := UnmountAt(q);
      StepKeepsTable(fs, CallUnmount(q));
    }

    /** fs_unmount of a resolved path. */
    method UnmountAt(q: string) returns (err: int)
      requires Listed(View()) && forall m :: m in info ==> info[m].ref >= 1
      modifies this
      ensures (View(), err) == DoUnmount(old(View()), q)
    {
      var m, _ := FindMount(q);
      if m.None? { return ERR_NO_ENTRY; }
      PutBoth(m.value, old(View()));
      unmounts := unmounts[m.value := Unmounts(old(View()), m.value) + 1];
      return 0;
    }

    /** Give back the reference of the search and one more. */
    method PutBoth(m: nat, ghost fs: Fs)
      requires m in fs.info && fs.info[m].ref >= 1 && View() == AddRef(fs, m, 1)
      modifies this`info, this`mounts
      ensures View() == Put(fs, m)
    {
      RefBack(fs, m);
      PutMount(m);
      PutMount(m);
    }

    /** fs_open_file; rest is the path handed to the driver, whose answer is apiResult. */
    method FsOpen(path: string, handle: nat, apiResult: int) returns (err: int, rest: string)
      requires NUL !in path && TableInv(View()) && handle !in handles
      modifies this
      ensures (View(), err) == DoOpen(old(View()), Resolve(path), handle, apiResult) && TableInv(View())
      ensures var q := Resolve(path);
        Find(old(View()), q).Some? ==>
          var p := old(info)[Find(old(View()), q).value].path;
          Split(p) <= Split(q) && p <= q && rest == if |q| == |p| then "/" else q[|p|..]
    {
      var q := ResolveCopy(path);
      StepKeepsTable(View(), CallOpen(q, handle, apiResult));
      var m;
      m, rest := FindMount(q);
      if m.None? { return ERR_NO_ENTRY, rest; }
      if apiResult < 0 {
        PutMount(m.value);
        RefBack(old(View()), m.value);
        return apiResult, rest;
      }
      handles := handles[handle := m.value];
      return 0, rest;
    }

    /** fs_close_file or fs_close_dir. */
    method FsClose(handle: nat, apiResult: int) returns (err: int)
      requires TableInv(View()) && handle in handles && handles[handle] in info
      modifies this
      ensures (View(), err) == DoClose(old(View()), handle, apiResult) && TableInv(View())
    {
      StepKeepsTable(View(), CallClose(handle, apiResult));
      if apiResult < 0 { return apiResult; }
      PutMount(handles[handle]);
      handles := handles - {handle};
      return 0;
    }
  }

  /** The first place whose components begin those of q gives the first match. */
  lemma {:induction false} FirstMatchAt(mounts: seq<nat>, info: map<nat, Mount>, q: string, k: nat)
    requires k <= |mounts| && forall m :: m in mounts ==> m in info
    requires forall j :: 0 <= j < k ==> !(Split(info[mounts[j]].path) <= Split(q))
    requires k < |mounts| ==> Split(info[mounts[k]].path) <= Split(q)
    ensures FirstMatch(mounts, info, q) == if k < |mounts| then Some(mounts[k]) else None
    decreases k
  {
    hide Split, Under;
    if mounts != [] { UnderIsPrefix(info[mounts[0]].path, q); }
    if k > 0 { FirstMatchAt(mounts[1..], info, q, k - 1); }
  }

  /** A reference taken and given back leaves the table as it was. */
  lemma RefBack(fs: Fs, m: nat)
    requires m in fs.info && fs.info[m].ref >= 1
    ensures Put(AddRef(fs, m, 1), m) == fs
  {
    assert fs.info[m := fs.info[m]] == fs.info;
  }
}
