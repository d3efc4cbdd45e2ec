/**
 The mount table as a state machine: which mount a path resolves to, how reference counts follow
 the open handles, and what goes wrong when a mount is unmounted twice.
 */
module MountSpec {
  import opened PathSpec
  import opened Sequences
  import opened Options

  const ERR_NO_ENTRY: int := -2
  const ERR_NO_MEM: int := -12
  const ERR_NO_DEV: int := -19
  const ERR_INVAL: int := -22
  const FS_MAX_PATH_LEN: nat := 128

  datatype Mount = Mount(path: string, ref: int)

  /**
   mounts is the list, newest first, of addresses of the structures in info; handles maps every open
   file or directory handle to its mount; unmounts counts the successful fs_unmount calls on a mount.
   */
  datatype Fs = Fs(mounts: seq<nat>, info: map<nat, Mount>, handles: map<nat, nat>, unmounts: map<nat, nat>)

  const EMPTY: Fs := Fs([], map[], map[], map[])

  /** q is the path p or lies beneath it, by whole components. */
  predicate Under(p: string, q: string) { p <= q && (|q| == |p| || q[|p|] == '/') }

  /** strlcpy into a buffer of FS_MAX_PATH_LEN, then fs_normalize_path. */
  function Resolve(path: string): string {
    Normalize(if |path| < FS_MAX_PATH_LEN then path else path[..FS_MAX_PATH_LEN - 1])
  }

  predicate Absolute(q: string) { q != "" && q[0] == '/' }

  function FirstMatch(mounts: seq<nat>, info: map<nat, Mount>, q: string): (r: Option<nat>)
    requires forall m :: m in mounts ==> m in info
    ensures r.Some? ==> r.value in mounts
  {
    if mounts == [] then None
    else if Under(info[mounts[0]].path, q) then Some(mounts[0])
    else FirstMatch(mounts[1..], info, q)
  }

  predicate Listed(fs: Fs) { forall m :: m in fs.mounts ==> m in fs.info }

  /** The mount find_mount returns, before its reference is counted. */
  function Find(fs: Fs, q: string): Option<nat>
    requires Listed(fs)
  {
    if Absolute(q) then FirstMatch(fs.mounts, fs.info, q) else None
  }

  function AddRef(fs: Fs, m: nat, d: int): Fs
    requires m in fs.info
  {
    fs.(info := fs.info[m := fs.info[m].(ref := fs.info[m].ref + d)])
  }

  /** put_mount: give a reference back; the last one removes the mount. */
  function Put(fs: Fs, m: nat): Fs
    requires m in fs.info
  {
    if fs.info[m].ref == 1 then fs.(mounts := Without(fs.mounts, m), info := fs.info - {m}) else AddRef(fs, m, -1)
  }

  /** Answers of everything outside the table that fs_mount consults. */
  datatype MountEnv = MountEnv(deviceOk: bool, apiResult: int, allocOk: bool)

  /** fs_mount on the resolved path q, with addr the address malloc gives the new structure. */
  function DoMount(fs: Fs, q: string, addr: nat, env: MountEnv): (Fs, int)
    requires Listed(fs)
  {
    if !Absolute(q) || Find(fs, q).Some? then (fs, ERR_INVAL)
    else if !env.deviceOk then (fs, ERR_NO_DEV)
    else if env.apiResult < 0 then (fs, env.apiResult)
    else if !env.allocOk then (fs, ERR_NO_MEM)
    else (Fs([addr] + fs.mounts, fs.info[addr := Mount(q, 1)], fs.handles, fs.unmounts[addr := 0]), 0)
  }

  function Unmounts(fs: Fs, m: nat): nat { if m in fs.unmounts then fs.unmounts[m] else 0 }

  function DoUnmount(fs: Fs, q: string): (Fs, int)
    requires Listed(fs)
  {
    match Find(fs, q)
    case None => (fs, ERR_NO_ENTRY)
    case Some(m) => (Put(fs, m).(unmounts := fs.unmounts[m := Unmounts(fs, m) + 1]), 0)
  }

  /** fs_open_file, fs_create_file or fs_open_dir, whose driver call answers apiResult. */
  function DoOpen(fs: Fs, q: string, handle: nat, apiResult: int): (Fs, int)
    requires Listed(fs)
  {
    match Find(fs, q)
    case None => (fs, ERR_NO_ENTRY)
    case Some(m) =>
      if apiResult < 0 then (fs, apiResult) else (AddRef(fs, m, 1).(handles := fs.handles[handle := m]), 0)
  }

  /** fs_close_file or fs_close_dir. */
  function DoClose(fs: Fs, handle: nat, apiResult: int): (Fs, int)
    requires handle in fs.handles && fs.handles[handle] in fs.info
  {
    if apiResult < 0 then (fs, apiResult)
    else (Put(fs, fs.handles[handle]).(handles := fs.handles - {handle}), 0)
  }

  // ----- Invariants

  /** Newest first, no mount listed twice or lying under an older one. */
  ghost predicate Ordered(mounts: seq<nat>, info: map<nat, Mount>) {
    forall i, j :: 0 <= i < j < |mounts| ==>
      mounts[i] != mounts[j] && mounts[i] in info && mounts[j] in info
      && !Under(info[mounts[j]].path, info[mounts[i]].path)
  }

  /** The table itself: the list names exactly the structures, in order. */
  ghost predicate TableInv(fs: Fs) {
    && (forall m :: m in fs.mounts <==> m in fs.info)
    && Ordered(fs.mounts, fs.info)
    && (forall m :: m in fs.info ==> fs.info[m].ref >= 1 && Absolute(fs.info[m].path))
  }

  ghost function HandlesOf(fs: Fs, m: nat): set<nat> { set h | h in fs.handles && fs.handles[h] == m }

  /** References are one for the mount itself, less the unmounts, plus the open handles. */
  ghost predicate RefInv(fs: Fs) {
    forall m :: m in fs.info ==> fs.info[m].ref == 1 - Unmounts(fs, m) + |HandlesOf(fs, m)|
  }

  /** No open handle refers to a removed mount. */
  ghost predicate NoDangling(fs: Fs) { forall h :: h in fs.handles ==> fs.handles[h] in fs.info }

  // ----- Resolution

  ghost predicate FirstAt(mounts: seq<nat>, info: map<nat, Mount>, q: string, i: nat)
    requires forall m :: m in mounts ==> m in info
  {
    i < |mounts| && Under(info[mounts[i]].path, q) && forall j :: 0 <= j < i ==> !Under(info[mounts[j]].path, q)
  }

  lemma {:induction false} FirstMatchIsFirst(mounts: seq<nat>, info: map<nat, Mount>, q: string)
    requires forall m :: m in mounts ==> m in info
    ensures var r := FirstMatch(mounts, info, q);
            && (r.None? ==> forall m :: m in mounts ==> !Under(info[m].path, q))
            && (r.Some? ==> exists i: nat :: FirstAt(mounts, info, q, i) && r.value == mounts[i])
  {
    if mounts != [] && Under(info[mounts[0]].path, q) {
      assert FirstAt(mounts, info, q, 0);
    } else if mounts != [] {
      assert forall m :: m in mounts[1..] ==> m in mounts;
      FirstMatchIsFirst(mounts[1..], info, q);
      var r := FirstMatch(mounts[1..], info, q);
      if r.Some? {
        var i: nat :| FirstAt(mounts[1..], info, q, i) && r.value == mounts[1..][i];
        forall j | 0 <= j < i + 1 ensures !Under(info[mounts[j]].path, q) {
          if j > 0 { assert mounts[j] == mounts[1..][j - 1]; }
        }
        assert FirstAt(mounts, info, q, i + 1);
      } else {
        assert mounts == [mounts[0]] + mounts[1..];
      }
    }
  }

  /** Under is the prefix order on the lists of components. */
  lemma UnderIsPrefix(p: string, q: string)
    ensures Under(p, q) <==> Split(p) <= Split(q)
  {
    if Split(p) <= Split(q) { PrefixContinues(p, q); }
    if Under(p, q) {
      if |p| == |q| {
        assert p == q;
      } else {
        assert q == p + ("/" + q[|p| + 1..]);
        SplitConcat(p, q[|p| + 1..]);
      }
    }
  }

  /** Mount m is at or above the path with the components parts. */
  ghost predicate Above(fs: Fs, m: nat, parts: seq<string>) { m in fs.info && Split(fs.info[m].path) <= parts }

  lemma AboveIsUnder(fs: Fs, q: string)
    ensures forall m :: Above(fs, m, Split(q)) <==> m in fs.info && Under(fs.info[m].path, q)
  {
    forall m ensures Above(fs, m, Split(q)) <==> m in fs.info && Under(fs.info[m].path, q) {
      if m in fs.info { UnderIsPrefix(fs.info[m].path, q); }
    }
  }

  /**
   Main result on lookups: the mount found is the one with the fewest components among those whose
   components begin the components of q, and none is found exactly when there is no such mount.
   */
  lemma {:induction false} FindIsShortest(fs: Fs, q: string)
    requires TableInv(fs) && Absolute(q)
    ensures Find(fs, q).None? <==> forall m :: m in fs.info ==> !(Split(fs.info[m].path) <= Split(q))
    ensures Find(fs, q).Some? ==>
              var f := Find(fs, q).value;
              f in fs.info && Split(fs.info[f].path) <= Split(q)
              && forall m :: m in fs.info && m != f && Split(fs.info[m].path) <= Split(q) ==>
                   |Split(fs.info[f].path)| < |Split(fs.info[m].path)|
  {
    AboveIsUnder(fs, q);
    FindAbove(fs, q);
    assert forall m :: m in fs.info ==> (Above(fs, m, Split(q)) <==> Split(fs.info[m].path) <= Split(q));
  }

  /** Of two paths above q, one that is not under the other has fewer components. */
  lemma FewerComponents(p: string, r: string, q: string)
    requires Under(p, q) && Under(r, q) && !Under(r, p)
    ensures |Split(p)| < |Split(r)|
  {
    UnderIsPrefix(p, q);
    UnderIsPrefix(r, q);
    UnderIsPrefix(r, p);
    hide Split, Under;
  }

  lemma {:induction false} FindAbove(fs: Fs, q: string)
    requires TableInv(fs) && Absolute(q)
    ensures Find(fs, q).None? <==> forall m :: m in fs.info ==> !Under(fs.info[m].path, q)
    ensures Find(fs, q).Some? ==>
              var f := Find(fs, q).value;
              f in fs.info && Under(fs.info[f].path, q)
              && forall m :: m in fs.info && m != f && Under(fs.info[m].path, q) ==>
                   |Split(fs.info[f].path)| < |Split(fs.info[m].path)|
  {
    FirstMatchIsFirst(fs.mounts, fs.info, q);
    hide Split, Under, FirstMatch;
    if Find(fs, q).Some? {
      var i: nat :| FirstAt(fs.mounts, fs.info, q, i) && Find(fs, q).value == fs.mounts[i];
      var f := fs.mounts[i];
      forall m | m in fs.info && m != f && Under(fs.info[m].path, q)
        ensures |Split(fs.info[f].path)| < |Split(fs.info[m].path)|
      {
        var k :| 0 <= k < |fs.mounts| && fs.mounts[k] == m;
        FewerComponents(fs.info[f].path, fs.info[m].path, q);
      }
    }
  }

  /** All mounted paths differ. */
  lemma PathsAreDistinct(fs: Fs, m: nat, m': nat)
    requires TableInv(fs) && m in fs.info && m' in fs.info && m != m'
    ensures fs.info[m].path != fs.info[m'].path
  {
    var i :| 0 <= i < |fs.mounts| && fs.mounts[i] == m;
    var j :| 0 <= j < |fs.mounts| && fs.mounts[j] == m';
    assert Under(fs.info[m].path, fs.info[m].path);
  }

  // ----- Runs

  /** Calls on resolved paths. */
  datatype Op =
    | CallMount(q: string, addr: nat, env: MountEnv)
    | CallUnmount(q: string)
    | CallOpen(q: string, handle: nat, apiResult: int)
    | CallClose(handle: nat, apiResult: int)

  /** New structures get memory not in use, and only handles on a mount in the table are closed. */
  predicate Legal(fs: Fs, op: Op)
    requires Listed(fs)
  {
    match op
    case CallMount(_, addr, _) => addr !in fs.info
    case CallUnmount(_) => true
    case CallOpen(_, handle, _) => handle !in fs.handles
    case CallClose(handle, _) => handle in fs.handles && fs.handles[handle] in fs.info
  }

  /** The op does not unmount a mount a second time. */
  predicate Once(fs: Fs, op: Op)
    requires Listed(fs)
  {
    op.CallUnmount? && Find(fs, op.q).Some? ==> Unmounts(fs, Find(fs, op.q).value) == 0
  }

  function Step(fs: Fs, op: Op): Fs
    requires Listed(fs) && Legal(fs, op)
  {
    match op
    case CallMount(q, addr, env) => DoMount(fs, q, addr, env).0
    case CallUnmount(q) => DoUnmount(fs, q).0
    case CallOpen(q, handle, apiResult) => DoOpen(fs, q, handle, apiResult).0
    case CallClose(handle, apiResult) => DoClose(fs, handle, apiResult).0
  }

  // ----- Every call keeps the table in order

  lemma CutMembers(s: seq<nat>, k: nat, x: nat)
    requires k < |s| && Distinct(s)
    ensures x in s[..k] + s[k + 1..] <==> x in s && x != s[k]
  {
    var t := s[..k] + s[k + 1..];
    if x in s && x != s[k] {
      var i :| 0 <= i < |s| && s[i] == x;
      assert t[if i < k then i else i - 1] == x;
    }
    if x in t {
      var i :| 0 <= i < |t| && t[i] == x;
      assert s[if i < k then i else i + 1] == x;
    }
  }

  lemma CutOrdered(mounts: seq<nat>, info: map<nat, Mount>, k: nat)
    requires k < |mounts| && Ordered(mounts, info)
    ensures Ordered(mounts[..k] + mounts[k + 1..], info - {mounts[k]})
  {
    var t := mounts[..k] + mounts[k + 1..];
    forall i, j | 0 <= i < j < |t|
      ensures t[i] != t[j] && t[i] in info && t[j] in info && t[i] != mounts[k] && t[j] != mounts[k]
      ensures !Under(info[t[j]].path, info[t[i]].path)
    {
      var i', j' := if i < k then i else i + 1, if j < k then j else j + 1;
      assert t[i] == mounts[i'] && t[j] == mounts[j'] && i' < j' && i' != k && j' != k;
      assert mounts[i'] != mounts[k] && mounts[j'] != mounts[k];
    }
  }

  lemma RemoveKeepsTable(fs: Fs, k: nat)
    requires TableInv(fs) && k < |fs.mounts|
    ensures TableInv(fs.(mounts := fs.mounts[..k] + fs.mounts[k + 1..], info := fs.info - {fs.mounts[k]}))
  {
    CutOrdered(fs.mounts, fs.info, k);
    forall x: nat ensures x in fs.mounts[..k] + fs.mounts[k + 1..] <==> x in fs.info && x != fs.mounts[k] {
      CutMembers(fs.mounts, k, x);
    }
  }

  lemma AddRefKeepsTable(fs: Fs, m: nat, d: int)
    requires TableInv(fs) && m in fs.info && fs.info[m].ref + d >= 1
    ensures TableInv(AddRef(fs, m, d))
  {
    assert forall x :: x in fs.info ==> AddRef(fs, m, d).info[x].path == fs.info[x].path;
  }

  lemma {:induction false} PutKeepsTable(fs: Fs, m: nat)
    requires TableInv(fs) && m in fs.info
    ensures TableInv(Put(fs, m))
  {
    if fs.info[m].ref == 1 {
      var k :| 0 <= k < |fs.mounts| && fs.mounts[k] == m;
      WithoutAt(fs.mounts, k);
      RemoveKeepsTable(fs, k);
    } else {
      AddRefKeepsTable(fs, m, -1);
    }
  }

  lemma {:induction false} MountKeepsTable(fs: Fs, q: string, addr: nat, env: MountEnv)
    requires TableInv(fs) && addr !in fs.info
    ensures TableInv(DoMount(fs, q, addr, env).0)
  {
    var fs' := DoMount(fs, q, addr, env).0;
    if fs' != fs {
      FindAbove(fs, q);
      ConsOrdered(fs.mounts, fs.info, q, addr);
    }
  }

  lemma {:induction false} ConsOrdered(mounts: seq<nat>, info: map<nat, Mount>, q: string, addr: nat)
    requires Ordered(mounts, info) && addr !in info
    requires forall m :: m in mounts ==> m in info && !Under(info[m].path, q)
    ensures Ordered([addr] + mounts, info[addr := Mount(q, 1)])
  {
    var t, info' := [addr] + mounts, info[addr := Mount(q, 1)];
    forall i, j | 0 <= i < j < |t|
      ensures t[i] != t[j] && t[i] in info' && t[j] in info' && !Under(info'[t[j]].path, info'[t[i]].path)
    {
      assert t[j] == mounts[j - 1] && mounts[j - 1] in mounts;
      if i > 0 { assert t[i] == mounts[i - 1]; }
    }
  }

  lemma TableOnly(fs: Fs, fs': Fs)
    requires TableInv(fs) && fs'.mounts == fs.mounts && fs'.info == fs.info
    ensures TableInv(fs')
  {}

  /** Every call keeps the table in order, unmounts repeated or not. */
  lemma {:induction false} StepKeepsTable(fs: Fs, op: Op)
    requires TableInv(fs) && Legal(fs, op)
    ensures TableInv(Step(fs, op))
  {
    match op {
      case CallMount(q, addr, env) => MountKeepsTable(fs, q, addr, env);
      case CallUnmount(q) =>
        if Find(fs, q).Some? {
          PutKeepsTable(fs, Find(fs, q).value);
          TableOnly(Put(fs, Find(fs, q).value), Step(fs, op));
        }
      case CallOpen(q, handle, apiResult) =>
        if Find(fs, q).Some? && apiResult >= 0 {
          AddRefKeepsTable(fs, Find(fs, q).value, 1);
          TableOnly(AddRef(fs, Find(fs, q).value, 1), Step(fs, op));
        }
      case CallClose(handle, apiResult) =>
        if apiResult >= 0 {
          PutKeepsTable(fs, fs.handles[handle]);
          TableOnly(Put(fs, fs.handles[handle]), Step(fs, op));
        }
    }
  }

  // ----- References

  /** The reference discipline of runs that unmount each mount at most once. */
  ghost predicate Counted(fs: Fs) {
    && RefInv(fs) && NoDangling(fs)
    && (forall m :: m in fs.info ==> fs.info[m].ref >= 1 && Unmounts(fs, m) <= 1)
  }

  lemma HandleAdded(fs: Fs, fs': Fs, h: nat, m: nat, x: nat)
    requires h !in fs.handles && fs'.handles == fs.handles[h := m]
    ensures |HandlesOf(fs', x)| == |HandlesOf(fs, x)| + if x == m then 1 else 0
  {
    assert HandlesOf(fs', x) == if x == m then HandlesOf(fs, x) + {h} else HandlesOf(fs, x);
  }

  lemma HandleRemoved(fs: Fs, fs': Fs, h: nat, x: nat)
    requires h in fs.handles && fs'.handles == fs.handles - {h}
    ensures |HandlesOf(fs', x)| == |HandlesOf(fs, x)| - if x == fs.handles[h] then 1 else 0
  {
    assert HandlesOf(fs', x) == if x == fs.handles[h] then HandlesOf(fs, x) - {h} else HandlesOf(fs, x);
    assert h in HandlesOf(fs, fs.handles[h]);
  }

  /** A handle on m means m has at least one, and exactly that one if it has one. */
  lemma HandleCounts(fs: Fs, m: nat, h: nat)
    requires h in fs.handles && fs.handles[h] == m
    ensures |HandlesOf(fs, m)| >= 1
    ensures |HandlesOf(fs, m)| == 1 ==> HandlesOf(fs, m) == {h}
  {
    assert h in HandlesOf(fs, m);
    assert |HandlesOf(fs, m) - {h}| == |HandlesOf(fs, m)| - 1;
    if |HandlesOf(fs, m)| == 1 { assert HandlesOf(fs, m) - {h} == {}; }
  }

  lemma UnmountKeepsCounts(fs: Fs, q: string)
    requires Listed(fs) && Counted(fs) && Once(fs, CallUnmount(q))
    ensures Counted(DoUnmount(fs, q).0)
  {
    var r := Find(fs, q);
    if r.Some? {
      var fs' := DoUnmount(fs, q).0;
      forall m | m in fs'.info ensures fs'.info[m].ref == 1 - Unmounts(fs', m) + |HandlesOf(fs', m)| {
        assert HandlesOf(fs', m) == HandlesOf(fs, m);
      }
      forall h | h in fs'.handles ensures fs'.handles[h] in fs'.info {
        HandleCounts(fs, fs.handles[h], h);
      }
    }
  }

  lemma CloseKeepsCounts(fs: Fs, h: nat, apiResult: int)
    requires Counted(fs) && h in fs.handles
    ensures Counted(DoClose(fs, h, apiResult).0)
  {
    if apiResult >= 0 {
      var m := fs.handles[h];
      var fs' := DoClose(fs, h, apiResult).0;
      HandleCounts(fs, m, h);
      forall x | x in fs'.info ensures fs'.info[x].ref == 1 - Unmounts(fs', x) + |HandlesOf(fs', x)| {
        HandleRemoved(fs, fs', h, x);
      }
      forall g | g in fs'.handles ensures fs'.handles[g] in fs'.info {
        if fs.handles[g] == m { assert g in HandlesOf(fs, m); }
      }
    }
  }

  lemma OpenKeepsCounts(fs: Fs, q: string, h: nat, apiResult: int)
    requires Listed(fs) && Counted(fs) && h !in fs.handles
    ensures Counted(DoOpen(fs, q, h, apiResult).0)
  {
    var fs' := DoOpen(fs, q, h, apiResult).0;
    var r := Find(fs, q);
    if r.Some? && apiResult >= 0 {
      forall x | x in fs'.info ensures fs'.info[x].ref == 1 - Unmounts(fs', x) + |HandlesOf(fs', x)| {
        HandleAdded(fs, fs', h, r.value, x);
      }
    }
  }

  lemma MountKeepsCounts(fs: Fs, q: string, addr: nat, env: MountEnv)
    requires Listed(fs) && Counted(fs) && addr !in fs.info
    ensures Counted(DoMount(fs, q, addr, env).0)
  {
    var fs' := DoMount(fs, q, addr, env).0;
    if fs' != fs {
      forall x | x in fs'.info ensures fs'.info[x].ref == 1 - Unmounts(fs', x) + |HandlesOf(fs', x)| {
        assert HandlesOf(fs', x) == HandlesOf(fs, x);
        if x == addr { assert HandlesOf(fs, x) == {}; }
      }
    }
  }

  lemma StepKeepsCounts(fs: Fs, op: Op)
    requires Listed(fs) && Counted(fs) && Legal(fs, op) && Once(fs, op)
    ensures Counted(Step(fs, op))
  {
    match op {
      case CallMount(q, addr, env) => MountKeepsCounts(fs, q, addr, env);
      case CallUnmount(q) => UnmountKeepsCounts(fs, q);
      case CallOpen(q, handle, apiResult) => OpenKeepsCounts(fs, q, handle, apiResult);
      case CallClose(handle, apiResult) => CloseKeepsCounts(fs, handle, apiResult);
    }
  }

  /** fs' is reached from fs by legal calls, any of which may unmount what is unmounted already. */
  ghost predicate Runs(fs: Fs, ops: seq<Op>, fs': Fs)
    decreases |ops|
  {
    if ops == [] then fs' == fs
    else Listed(fs) && Legal(fs, ops[0]) && Runs(Step(fs, ops[0]), ops[1..], fs')
  }

  /** The table stays in order over every run, repeated unmounts included. */
  lemma {:induction false} RunKeepsTable(fs: Fs, ops: seq<Op>, fs': Fs)
    requires TableInv(fs) && Runs(fs, ops, fs')
    ensures TableInv(fs')
    decreases |ops|
  {
    if ops != [] {
      StepKeepsTable(fs, ops[0]);
      RunKeepsTable(Step(fs, ops[0]), ops[1..], fs');
    }
  }

  /** fs' is reached from fs by legal calls that unmount no mount twice. */
  ghost predicate Reaches(fs: Fs, ops: seq<Op>, fs': Fs)
    decreases |ops|
  {
    if ops == [] then fs' == fs
    else Listed(fs) && Legal(fs, ops[0]) && Once(fs, ops[0]) && Reaches(Step(fs, ops[0]), ops[1..], fs')
  }

  lemma {:induction false} RunKeepsInv(fs: Fs, ops: seq<Op>, fs': Fs)
    requires TableInv(fs) && Counted(fs) && Reaches(fs, ops, fs')
    ensures TableInv(fs') && Counted(fs')
    decreases |ops|
  {
    if ops != [] {
      StepKeepsTable(fs, ops[0]);
      StepKeepsCounts(fs, ops[0]);
      RunKeepsInv(Step(fs, ops[0]), ops[1..], fs');
    }
  }

  /**
   In every such run a mount in the table has one reference until it is unmounted plus one per open
   handle, that sum is never zero, and every open handle refers to a mount in the table.
   */
  lemma {:induction false} RefsFollowHandles(ops: seq<Op>, fs: Fs)
    requires Reaches(EMPTY, ops, fs)
    ensures TableInv(fs)
    ensures forall m :: m in fs.info ==>
      fs.info[m].ref == (if Unmounts(fs, m) == 0 then 1 else 0) + |HandlesOf(fs, m)| > 0
    ensures forall h :: h in fs.handles ==> fs.handles[h] in fs.mounts
  {
    RunKeepsInv(EMPTY, ops, fs);
  }

  /** A call removes a mount exactly when it takes that sum to zero. */
  lemma RemovedIffLastReference(fs: Fs, op: Op, m: nat)
    requires Listed(fs) && Counted(fs) && Legal(fs, op) && Once(fs, op) && m in fs.info
    ensures var fs' := Step(fs, op);
            m !in fs'.info <==> Unmounts(fs', m) >= 1 && HandlesOf(fs', m) == {}
  {
    StepKeepsCounts(fs, op);
    var fs' := Step(fs, op);
    if m in fs'.info {
      if HandlesOf(fs', m) == {} { assert |HandlesOf(fs', m)| == 0; }
    } else {
      assert fs.info[m].ref == 1;
      if op.CallClose? {
        HandleCounts(fs, m, op.handle);
        assert HandlesOf(fs', m) == HandlesOf(fs, m) - {op.handle};
      } else {
        assert HandlesOf(fs', m) == HandlesOf(fs, m);
        assert |HandlesOf(fs, m)| == 0;
      }
    }
  }

  // ----- Unmounting more than once

  /** An unmount leaves a dangling handle exactly when it drops the last reference under open handles. */
  lemma UnmountDanglesIff(fs: Fs, q: string)
    requires Listed(fs) && NoDangling(fs) && Find(fs, q).Some?
    ensures var m := Find(fs, q).value;
            NoDangling(DoUnmount(fs, q).0) <==> !(fs.info[m].ref == 1 && HandlesOf(fs, m) != {})
  {
    var m := Find(fs, q).value;
    var fs' := DoUnmount(fs, q).0;
    if fs.info[m].ref == 1 && HandlesOf(fs, m) != {} {
      var h :| h in HandlesOf(fs, m);
      assert h in fs'.handles && fs'.handles[h] !in fs'.info;
    } else if fs.info[m].ref == 1 {
      forall h | h in fs'.handles ensures fs'.handles[h] in fs'.info {
        assert fs.handles[h] == m ==> h in HandlesOf(fs, m);
      }
    }
  }

  /** Mount, open, unmount and unmount again: the open handle then refers to no mount. */
  lemma {:induction false} DoubleUnmountDangles(m: nat, h: nat) returns (fs: Fs)
    ensures var mount, open := CallMount("/mnt", m, MountEnv(true, 0, true)), CallOpen("/mnt", h, 0);
      Runs(EMPTY, [mount, open, CallUnmount("/mnt"), CallUnmount("/mnt")], fs)
    ensures h in fs.handles && !NoDangling(fs)
  {
    var mount, open := CallMount("/mnt", m, MountEnv(true, 0, true)), CallOpen("/mnt", h, 0);
    var unmount := CallUnmount("/mnt");
    assert Under("/mnt", "/mnt");
    var one := Step(EMPTY, mount);
    assert one.mounts == [m] && one.info == map[m := Mount("/mnt", 1)];
    var two := Step(one, open);
    assert two.mounts == [m] && two.info == map[m := Mount("/mnt", 2)] && two.handles == map[h := m];
    var three := Step(two, unmount);
    assert three.mounts == [m] && three.info == map[m := Mount("/mnt", 1)] && three.handles == map[h := m];
    fs := Step(three, unmount);
    assert fs.handles[h] !in fs.info;
    RunsOfFour(EMPTY, mount, open, unmount, unmount, one, two, three, fs);
  }

  lemma {:induction false} RunsOfFour(fs: Fs, a: Op, b: Op, c: Op, d: Op, one: Fs, two: Fs, three: Fs, four: Fs)
    requires Listed(fs) && Legal(fs, a) && one == Step(fs, a) && Listed(one) && Legal(one, b) && two == Step(one, b)
    requires Listed(two) && Legal(two, c) && three == Step(two, c)
    requires Listed(three) && Legal(three, d) && four == Step(three, d)
    ensures Runs(fs, [a, b, c, d], four)
  {
    assert [a, b, c, d][1..] == [b, c, d] && [b, c, d][1..] == [c, d] && [c, d][1..] == [d] && [d][1..] == [];
    assert Runs(three, [d], four);
    assert Runs(two, [c, d], four);
    assert Runs(one, [b, c, d], four);
  }

  /** The components of some mounted path begin those of q. */
  ghost predicate Covered(fs: Fs, q: string) {
    exists m :: m in fs.info && Split(fs.info[m].path) <= Split(q)
  }

  /** Which answer fs_mount gives, and what it leaves behind. */
  lemma {:induction false} MountOutcome(fs: Fs, q: string, addr: nat, env: MountEnv)
    requires TableInv(fs) && addr !in fs.info
    ensures var (fs', err) := DoMount(fs, q, addr, env);
      && (err == 0 <==> q != "" && q[0] == '/' && !Covered(fs, q) && env == MountEnv(true, env.apiResult, true)
                        && env.apiResult >= 0)
      && (err != 0 ==> fs' == fs)
      && (q == "" || q[0] != '/' || Covered(fs, q) ==> err == -22)
      && (q != "" && q[0] == '/' && !Covered(fs, q) && !env.deviceOk ==> err == -19)
      && (err == 0 ==>
            && fs'.mounts == [addr] + fs.mounts && fs'.handles == fs.handles && Unmounts(fs', addr) == 0
            && fs'.info.Keys == fs.info.Keys + {addr} && fs'.info[addr] == Mount(q, 1)
            && forall m :: m in fs.info ==> fs'.info[m] == fs.info[m])
  {
    if Absolute(q) { FindIsShortest(fs, q); }
  }

  /** m is the mount for q: the one with the fewest components among those whose components begin q's. */
  ghost predicate Serves(fs: Fs, m: nat, q: string) {
    && q != "" && q[0] == '/' && m in fs.info && Split(fs.info[m].path) <= Split(q)
    && forall x :: x in fs.info && x != m && Split(fs.info[x].path) <= Split(q) ==>
         |Split(fs.info[m].path)| < |Split(fs.info[x].path)|
  }

  lemma {:induction false} FindServes(fs: Fs, q: string, m: nat)
    requires TableInv(fs)
    ensures Find(fs, q) == Some(m) <==> Serves(fs, m, q)
  {
    if Absolute(q) { FindIsShortest(fs, q); }
  }

  /** fs_unmount takes one reference from the mount for q, the last one with the mount, and touches no other. */
  lemma {:induction false} UnmountOutcome(fs: Fs, q: string, m: nat)
    requires TableInv(fs) && Serves(fs, m, q)
    ensures var (fs', err) := DoUnmount(fs, q);
      && err == 0 && fs'.handles == fs.handles && Unmounts(fs', m) == Unmounts(fs, m) + 1
      && (m in fs'.info <==> fs.info[m].ref > 1)
      && (m in fs'.info ==> fs'.info[m] == Mount(fs.info[m].path, fs.info[m].ref - 1))
      && (forall x :: x != m ==> (x in fs'.info <==> x in fs.info) && (x in fs.info ==> fs'.info[x] == fs.info[x]))
  {
    FindServes(fs, q, m);
  }

  /** A successful open adds a reference to the mount for q and a handle on it; a failed one changes nothing. */
  lemma {:induction false} OpenOutcome(fs: Fs, q: string, handle: nat, apiResult: int, m: nat)
    requires TableInv(fs) && Serves(fs, m, q)
    ensures var (fs', err) := DoOpen(fs, q, handle, apiResult);
      && (apiResult < 0 ==> err == apiResult && fs' == fs)
      && (apiResult >= 0 ==>
            && err == 0 && fs'.handles == fs.handles[handle := m] && fs'.mounts == fs.mounts
            && fs'.info == fs.info[m := Mount(fs.info[m].path, fs.info[m].ref + 1)])
  {
    FindServes(fs, q, m);
  }

  /** With no mount for q both answer -2 and change nothing. */
  lemma {:induction false} NoMountOutcome(fs: Fs, q: string, handle: nat, apiResult: int)
    requires TableInv(fs) && forall m :: !Serves(fs, m, q)
    ensures DoUnmount(fs, q) == (fs, -2) && DoOpen(fs, q, handle, apiResult) == (fs, -2)
    ensures q != "" && q[0] == '/' ==> !Covered(fs, q)
  {
    if Find(fs, q).Some? { FindServes(fs, q, Find(fs, q).value); }
    if Absolute(q) { FindIsShortest(fs, q); }
  }

  /** A new mount above an older one hides it: paths under the older one now resolve to the new one. */
  lemma NewMountHides(fs: Fs, q: string, addr: nat, env: MountEnv, p: string)
    requires TableInv(fs) && addr !in fs.info && DoMount(fs, q, addr, env).1 == 0
    requires Absolute(p) && Split(q) <= Split(p)
    ensures Listed(DoMount(fs, q, addr, env).0) && Find(DoMount(fs, q, addr, env).0, p) == Some(addr)
  {
    UnderIsPrefix(q, p);
  }
}
