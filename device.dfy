/** The reservation side of a device plugin for a cluster workload
    orchestrator. The plugin keeps a table of known device IDs; when a task
    that was scheduled onto some of those devices is about to start, the
    orchestrator asks the plugin to reserve them, and the plugin answers with
    the environment variables, bind mounts and device nodes the task's
    sandbox needs, or with an error naming the IDs it does not know. */
module Device {
  import opened Text

  /** A host path bind-mounted into the task (shared libraries and the like). */
  datatype Mount = Mount(taskPath: string, hostPath: string, readOnly: bool)

  /** A device node exposed to the task, with its cgroup permissions. */
  datatype DeviceSpec = DeviceSpec(taskPath: string, hostPath: string, cgroupPerms: string)

  /** What a successful reservation hands back to the task driver. */
  datatype ContainerReservation = ContainerReservation(
    envs: map<string, string>,
    mounts: seq<Mount>,
    devices: seq<DeviceSpec>)

  /** The plugin's own error: the requested IDs absent from the device table. */
  datatype ReservationError = ReservationError(notExistingIDs: seq<string>)

  /** Why a reservation failed: the up-front membership check, or the
      per-device re-check while the reservation is built (which `Reserve`
      in device/device.go reports as an RPC status with code InvalidArgument). */
  datatype ReserveError =
    | UnknownDevices(err: ReservationError)
    | InvalidArgument(id: string)

  datatype ReserveResult =
    | Reserved(reservation: ContainerReservation)
    | Failed(error: ReserveError)

  const ErrorPrefix: string := "unknown device IDs: "

  /** The one library mount every non-empty reservation starts with. */
  const LibraryMount: Mount := Mount(
    "/usr/lib/libsome-library.so",
    "/usr/lib/libprobably-some-fingerprinted-or-configured-library.so",
    true)

  const DeviceHostPath: string := "/dev/devActual"
  const DeviceCgroupPerms: string := "rx"

  /** The reservation returned for a request with no device IDs. */
  const EmptyReservation: ContainerReservation := ContainerReservation(map[], [], [])

  /** Name of the environment variable carrying the ID at request position `i`. */
  function EnvKey(i: nat): string {
    "DEVICE_" + NatToString(i)
  }

  /** The device node for request position `i`. */
  function DeviceNode(i: nat): DeviceSpec {
    DeviceSpec("/dev/skel" + NatToString(i), DeviceHostPath, DeviceCgroupPerms)
  }

  /** Error(): the prefix followed by the unknown IDs joined with commas.
      Every message starts with the fixed prefix; `ErrorTextListsIDs` shows
      that the IDs can be read back from the rest. */
  function ErrorText(e: ReservationError): (msg: string)
    ensures |msg| >= |ErrorPrefix| && msg[..|ErrorPrefix|] == ErrorPrefix
  {
    ErrorPrefix + Join(e.notExistingIDs, ",")
  }

  /** The requested IDs that are not keys of the device table, in request
      order, one entry per absent occurrence. */
  function NotExistingIDs(devices: map<string, string>, ids: seq<string>): seq<string> {
    if ids == [] then []
    else
      var last := ids[|ids| - 1];
      NotExistingIDs(devices, ids[..|ids| - 1]) + (if last in devices then [] else [last])
  }

  /** The build phase after positions 0 .. k-1: it starts from the library
      mount alone, re-checks each ID against the table and stops at the
      first one that is absent; otherwise it adds that position's env entry
      and device node. */
  function Build(devices: map<string, string>, ids: seq<string>, k: nat): ReserveResult
    requires k <= |ids|
  {
    if k == 0 then Reserved(ContainerReservation(map[], [LibraryMount], []))
    else
      match Build(devices, ids, k - 1)
      case Failed(e) => Failed(e)
      case Reserved(r) =>
        if ids[k - 1] !in devices then Failed(InvalidArgument(ids[k - 1]))
        else Reserved(ContainerReservation(
          r.envs[EnvKey(k - 1) := ids[k - 1]],
          r.mounts,
          r.devices + [DeviceNode(k - 1)]))
  }

  /** The whole reservation: empty for an empty request, an error listing
      every unknown ID when there is one, and the built reservation otherwise. */
  function ReserveSpec(devices: map<string, string>, ids: seq<string>): ReserveResult {
    if |ids| == 0 then Reserved(EmptyReservation)
    else
      var missing := NotExistingIDs(devices, ids);
      if |missing| != 0 then Failed(UnknownDevices(ReservationError(missing)))
      else Build(devices, ids, |ids|)
  }

  /** The environment keys of a reservation for `n` devices:
      DEVICE_0 .. DEVICE_{n-1}. */
  ghost function EnvKeys(n: nat): set<string> {
    if n == 0 then {} else EnvKeys(n - 1) + {EnvKey(n - 1)}
  }

  /** The environment of a reservation for `ids`: exactly the keys
      DEVICE_0 .. DEVICE_{n-1}, each mapped to the ID at its position, so
      duplicate IDs still get distinct keys. */
  ghost predicate EnvsLayout(envs: map<string, string>, ids: seq<string>) {
    && envs.Keys == EnvKeys(|ids|)
    && |envs| == |ids|
    && (forall i :: 0 <= i < |ids| ==> EnvKey(i) in envs && envs[EnvKey(i)] == ids[i])
  }

  /** The shape of a successful reservation for `ids`: the library mount
      alone, one device node per position in request order, and the
      environment above. */
  ghost predicate IsLayout(r: ContainerReservation, ids: seq<string>) {
    && r.mounts == [LibraryMount]
    && |r.devices| == |ids|
    && (forall i :: 0 <= i < |ids| ==> r.devices[i] == DeviceNode(i))
    && EnvsLayout(r.envs, ids)
  }

  lemma EnvKeyInjective(a: nat, b: nat)
    requires EnvKey(a) == EnvKey(b)
    ensures a == b
  {
    PrefixedNatInjective("DEVICE_", a, b);
  }

  // ---------------------------------------------------------------------
  // The unknown-ID scan

  /** The scan distributes over concatenation, keeping request order. */
  lemma {:induction false} NotExistingIDsAppend(devices: map<string, string>, a: seq<string>, b: seq<string>)
    ensures NotExistingIDs(devices, a + b) == NotExistingIDs(devices, a) + NotExistingIDs(devices, b)
  {
    if b == [] {
      assert a + b == a;
    } else {
      var last := b[|b| - 1];
      assert (a + b)[..|a + b| - 1] == a + b[..|b| - 1];
      NotExistingIDsAppend(devices, a, b[..|b| - 1]);
    }
  }

  /** An ID is reported exactly when it was requested and is not in the table. */
  lemma {:induction false} NotExistingIDsMembers(devices: map<string, string>, ids: seq<string>, x: string)
    ensures x in NotExistingIDs(devices, ids) <==> x in ids && x !in devices
  {
    if ids != [] {
      var init := ids[..|ids| - 1];
      NotExistingIDsMembers(devices, init, x);
      assert ids == init + [ids[|ids| - 1]];
      assert x in ids <==> x in init || x == ids[|ids| - 1];
    }
  }

  /** Duplicates are kept: an absent ID is reported as many times as it was
      requested, and a present one never. */
  lemma {:induction false} NotExistingIDsCount(devices: map<string, string>, ids: seq<string>, x: string)
    ensures multiset(NotExistingIDs(devices, ids))[x] == if x in devices then 0 else multiset(ids)[x]
  {
    if ids != [] {
      var init, last := ids[..|ids| - 1], ids[|ids| - 1];
      var before := NotExistingIDs(devices, init);
      NotExistingIDsCount(devices, init, x);
      assert ids == init + [last];
      if last in devices {
        assert NotExistingIDs(devices, ids) == before + [];
      } else {
        assert NotExistingIDs(devices, ids) == before + [last];
      }
    }
  }

  /** Nothing is reported exactly when every requested ID is in the table. */
  lemma {:induction false} NotExistingIDsEmpty(devices: map<string, string>, ids: seq<string>)
    ensures NotExistingIDs(devices, ids) == [] <==> forall i :: 0 <= i < |ids| ==> ids[i] in devices
  {
    if ids != [] {
      var init := ids[..|ids| - 1];
      NotExistingIDsEmpty(devices, init);
      assert forall i :: 0 <= i < |init| ==> init[i] == ids[i];
    }
  }

  /** When no requested ID is in the table, the whole request is reported. */
  lemma {:induction false} NotExistingIDsAllAbsent(devices: map<string, string>, ids: seq<string>)
    requires forall i :: 0 <= i < |ids| ==> ids[i] !in devices
    ensures NotExistingIDs(devices, ids) == ids
  {
    if ids != [] {
      var init := ids[..|ids| - 1];
      NotExistingIDsAllAbsent(devices, init);
      assert init + [ids[|ids| - 1]] == ids;
    }
  }

  // ---------------------------------------------------------------------
  // The build phase

  /** Once the build has failed, later positions keep the same failure. */
  lemma {:induction false} BuildFailureSticks(devices: map<string, string>, ids: seq<string>, k: nat, m: nat)
    requires k <= m <= |ids|
    requires Build(devices, ids, k).Failed?
    ensures Build(devices, ids, m) == Build(devices, ids, k)
  {
    if m > k {
      BuildFailureSticks(devices, ids, k, m - 1);
    }
  }

  /** The keys for `n` devices are exactly the keys of positions below `n`. */
  lemma {:induction false} EnvKeysMembers(n: nat, x: string)
    ensures x in EnvKeys(n) <==> exists i :: 0 <= i < n && EnvKey(i) == x
  {
    if n > 0 {
      EnvKeysMembers(n - 1, x);
    }
  }

  /** The key of a later position is not among the keys of earlier ones. */
  lemma {:induction false} EnvKeyFresh(n: nat, m: nat)
    requires n <= m
    ensures EnvKey(m) !in EnvKeys(n)
  {
    if n > 0 {
      EnvKeyFresh(n - 1, m);
      if EnvKey(n - 1) == EnvKey(m) {
        EnvKeyInjective(n - 1, m);
      }
    }
  }

  /** Adding the entry for the next position keeps the environment layout. */
  lemma EnvsLayoutStep(envs: map<string, string>, ids: seq<string>, id: string)
    requires EnvsLayout(envs, ids)
    ensures EnvsLayout(envs[EnvKey(|ids|) := id], ids + [id])
  {
    var n := |ids|;
    var envs' := envs[EnvKey(n) := id];
    var ids' := ids + [id];
    EnvKeyFresh(n, n);
    assert envs'.Keys == envs.Keys + {EnvKey(n)};
    forall i | 0 <= i < n + 1
      ensures EnvKey(i) in envs' && envs'[EnvKey(i)] == ids'[i]
    {
      if i < n && EnvKey(i) == EnvKey(n) {
        EnvKeyInjective(i, n);
      }
    }
  }

  /** Adding the next position's env entry and device node keeps the layout. */
  lemma LayoutStep(r: ContainerReservation, ids: seq<string>, id: string)
    requires IsLayout(r, ids)
    ensures IsLayout(ContainerReservation(
      r.envs[EnvKey(|ids|) := id], r.mounts, r.devices + [DeviceNode(|ids|)]), ids + [id])
  {
    var n := |ids|;
    var nodes := r.devices + [DeviceNode(n)];
    EnvsLayoutStep(r.envs, ids, id);
    forall i | 0 <= i < n + 1
      ensures nodes[i] == DeviceNode(i)
    {
      if i < n {
        assert nodes[i] == r.devices[i];
      }
    }
  }

  /** With every ID of the first `k` positions in the table, the build
      succeeds with the layout of those positions. */
  lemma {:induction false} BuildAllKnown(devices: map<string, string>, ids: seq<string>, k: nat)
    requires k <= |ids|
    requires forall i :: 0 <= i < k ==> ids[i] in devices
    ensures Build(devices, ids, k).Reserved?
    ensures IsLayout(Build(devices, ids, k).reservation, ids[..k])
  {
    if k > 0 {
      BuildAllKnown(devices, ids, k - 1);
      var r := Build(devices, ids, k - 1).reservation;
      var prefix := ids[..k - 1];
      assert |prefix| == k - 1;
      assert ids[..k] == prefix + [ids[k - 1]];
      LayoutStep(r, prefix, ids[k - 1]);
    } else {
      assert EnvKeys(0) == {};
    }
  }

  /** The build fails exactly at the first position whose ID is absent, and
      reports that ID. */
  lemma {:induction false} BuildFirstUnknown(devices: map<string, string>, ids: seq<string>, k: nat, j: nat)
    requires j < k <= |ids|
    requires ids[j] !in devices
    requires forall i :: 0 <= i < j ==> ids[i] in devices
    ensures Build(devices, ids, k) == Failed(InvalidArgument(ids[j]))
  {
    if k - 1 == j {
      BuildAllKnown(devices, ids, j);
    } else {
      BuildFirstUnknown(devices, ids, k - 1, j);
    }
  }

  // ---------------------------------------------------------------------
  // The reservation as a whole

  /** An empty request yields an empty reservation and no error. */
  lemma ReserveEmptyRequest(devices: map<string, string>)
    ensures ReserveSpec(devices, []) == Reserved(ContainerReservation(map[], [], []))
  {
  }

  /** A request fails exactly when some requested ID is not in the table, and
      then it is the up-front error, listing every unknown ID in request order. */
  lemma ReserveFailsIffUnknown(devices: map<string, string>, ids: seq<string>)
    ensures ReserveSpec(devices, ids).Failed? <==> exists i :: 0 <= i < |ids| && ids[i] !in devices
    ensures ReserveSpec(devices, ids).Failed? ==>
      ReserveSpec(devices, ids) == Failed(UnknownDevices(ReservationError(NotExistingIDs(devices, ids))))
  {
    NotExistingIDsEmpty(devices, ids);
    if ids != [] && NotExistingIDs(devices, ids) == [] {
      BuildAllKnown(devices, ids, |ids|);
    }
  }

  /** The re-check during the build never fires: a sequential reservation
      never fails with InvalidArgument. */
  lemma ReserveNeverInvalidArgument(devices: map<string, string>, ids: seq<string>)
    ensures !(ReserveSpec(devices, ids).Failed? && ReserveSpec(devices, ids).error.InvalidArgument?)
  {
    ReserveFailsIffUnknown(devices, ids);
  }

  /** A non-empty request of known IDs yields the library mount first, one
      device node and one env entry per position, in request order. */
  lemma ReserveSucceeds(devices: map<string, string>, ids: seq<string>)
    requires |ids| > 0
    requires forall i :: 0 <= i < |ids| ==> ids[i] in devices
    ensures ReserveSpec(devices, ids).Reserved?
    ensures IsLayout(ReserveSpec(devices, ids).reservation, ids)
  {
    NotExistingIDsEmpty(devices, ids);
    BuildAllKnown(devices, ids, |ids|);
    assert ids[..|ids|] == ids;
  }

  /** Against an empty device table every non-empty request fails and its
      message names every requested ID, joined with commas. */
  lemma ReserveWithEmptyTable(ids: seq<string>)
    requires |ids| > 0
    ensures ReserveSpec(map[], ids) == Failed(UnknownDevices(ReservationError(ids)))
    ensures ErrorText(ReserveSpec(map[], ids).error.err) == "unknown device IDs: " + Join(ids, ",")
  {
    NotExistingIDsAllAbsent(map[], ids);
  }

  /** The error message loses nothing: when no ID contains a comma, the IDs
      are read back from the text after the prefix. */
  lemma ErrorTextListsIDs(e: ReservationError)
    requires |e.notExistingIDs| > 0
    requires forall i :: 0 <= i < |e.notExistingIDs| ==> ',' !in e.notExistingIDs[i]
    ensures Split(ErrorText(e)[|ErrorPrefix|..], ',') == e.notExistingIDs
  {
    SplitJoin(e.notExistingIDs, ',');
    assert ErrorText(e)[|ErrorPrefix|..] == Join(e.notExistingIDs, [',']);
  }

  // ---------------------------------------------------------------------
  // The plugin object

  /** The plugin: its state is the table of known device IDs. */
  class SkeletonDevicePlugin {
    var devices: map<string, string>

    /** A new plugin starts with an empty device table. */
    constructor NewPlugin()
      ensures devices == map[]
    {
      devices := map[];
    }

    /** Reserve the devices at `deviceIDs`: scan for unknown IDs, then build
      the reservation position by position. Reads the table, changes nothing. */
    method Reserve(deviceIDs: seq<string>) returns (r: ReserveResult)
      ensures r == ReserveSpec(devices, deviceIDs)
    {
      if |deviceIDs| == 0 {
        return Reserved(ContainerReservation(map[], [], []));
      }

      var notExistingIDs: seq<string> := [];
      for i := 0 to |deviceIDs|
        invariant notExistingIDs == NotExistingIDs(devices, deviceIDs[..i])
      {
        assert deviceIDs[..i + 1][..i] == deviceIDs[..i];
        if deviceIDs[i] !in devices {
          notExistingIDs := notExistingIDs + [deviceIDs[i]];
        }
      }
      assert deviceIDs[..|deviceIDs|] == deviceIDs;
      if |notExistingIDs| != 0 {
        return Failed(UnknownDevices(ReservationError(notExistingIDs)));
      }

      var envs: map<string, string> := map[];
      var mounts: seq<Mount> := [];
      var nodes: seq<DeviceSpec> := [];
      mounts := mounts + [LibraryMount];

      for i := 0 to |deviceIDs|
        invariant Build(devices, deviceIDs, i) == Reserved(ContainerReservation(envs, mounts, nodes))
      {
        if deviceIDs[i] !in devices {
          r := Failed(InvalidArgument(deviceIDs[i]));
          BuildFailureSticks(devices, deviceIDs, i + 1, |deviceIDs|);
          return;
        }
        envs := envs[EnvKey(i) := deviceIDs[i]];
        nodes := nodes + [DeviceNode(i)];
      }
      return Reserved(ContainerReservation(envs, mounts, nodes));
    }
  }

  /** A plugin whose table holds one device: reserving it succeeds, and a
      request that also names an unknown ID fails and names only that one. */
  method ReserveScenario() {
    var p := new SkeletonDevicePlugin.NewPlugin();
    var r := p.Reserve(["epaper-0"]);
    assert r.Failed?;
    p.devices := map["epaper-0" := "/dev/epaper"];
    r := p.Reserve(["epaper-0"]);
    ReserveSucceeds(p.devices, ["epaper-0"]);
    assert r.reservation.envs[EnvKey(0)] == "epaper-0";
    assert |r.reservation.devices| == 1;
    r := p.Reserve(["epaper-0", "ghost"]);
    assert ["epaper-0", "ghost"][..1] == ["epaper-0"];
    assert ["epaper-0"][..0] == [];
    assert NotExistingIDs(p.devices, ["epaper-0"]) == [];
    assert "ghost"[0] != "epaper-0"[0];
    assert NotExistingIDs(p.devices, ["epaper-0", "ghost"]) == ["ghost"];
    assert r == Failed(UnknownDevices(ReservationError(["ghost"])));
  }
}
