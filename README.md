# Device reservation for a Nomad device plugin

This project models the reservation side of a Nomad device plugin for an
e-paper display hat. The plugin holds a table of known device IDs, which is
the `devices` map of `SkeletonDevicePlugin`. When a task that was scheduled
onto some devices is about to start, Nomad calls `Reserve` with the requested
IDs. `Reserve` then does one of three things:

- An empty request gets an empty reservation.
- A request that names IDs missing from the table fails with a
  `reservationError`. The error lists every missing ID in request order and
  keeps duplicates. Its text is `unknown device IDs: ` followed by the IDs
  joined with `,`.
- Any other request gets a reservation. It has one read-only library mount.
  For each position `i` it also has an env entry `DEVICE_<i>` set to the ID
  and a device node `/dev/skel<i>` for `/dev/devActual` with cgroup
  permissions `rx`.

Files:

- `device.dfy` (module `Device`) holds the data types, the specification
  functions and the lemmas. It also holds the class `SkeletonDevicePlugin`,
  with the `devices` field, the constructor `NewPlugin` and the method
  `Reserve`. `Reserve` keeps both loops of `Reserve` in device/device.go. The first loop
  collects the unknown IDs. The second loop builds the reservation and checks
  each ID again.
- `ReserveSpec` is the specification function that `Reserve` is proved
  against. `NotExistingIDs` specifies the first loop and `Build` the second,
  including the second check's `InvalidArgument` exit.
- `text.dfy` (module `Text`) stands in for the standard-library calls the
  core uses:
  - `NatToString` replaces `fmt.Sprintf("%d", i)` for a non-negative index.
    It has a parser that reads the number back.
  - `Join` replaces `strings.Join`. It has a `Split` that recovers the
    parts.

`Reserve` has no `modifies` clause, so the verifier enforces that it never
changes the plugin's state, including the device table. `ReserveSpec` is a
function, so two calls with the same table and the same request give the
same result.

Two points about the code's behaviour:

- On failure, the code returns no reservation at all. Nothing built so far,
  not even the library mount, is returned (device/device.go:125, 146).
- The missing-ID list is a list in request order with duplicates kept. It is
  not a set (device/device.go:117-122).

## Model

| member | source | states |
|---|---|---|
| `Device.SkeletonDevicePlugin.Reserve` | device/device.go:108-164 | the result is exactly `ReserveSpec` of the current table and the request (empty request, then the unknown-ID scan, then the build with its re-check); the method modifies nothing, so the device table is only read |
| `Device.SkeletonDevicePlugin.NewPlugin` | device/device.go:51-56 | a new plugin's device table is empty |
| `Device.ReserveEmptyRequest` | device/device.go:109-111 | an empty request yields a reservation with no envs, no mounts and no devices, and no error |
| `Device.ReserveFailsIffUnknown` | device/device.go:116-126 | a request fails if and only if some requested ID is not a key of the table, and then the failure is the reservation error carrying exactly the unknown-ID list |
| `Device.ReserveSucceeds` | device/device.go:128-163 | for a non-empty request of known IDs: exactly one mount, the fixed read-only library mount; one device node per position with task path `/dev/skel<i>`, host path `/dev/devActual` and perms `rx`, in request order; env keys exactly `DEVICE_0 .. DEVICE_{n-1}`, as many as the request, `DEVICE_<i>` mapped to the i-th ID |
| `Device.ReserveNeverInvalidArgument` | device/device.go:118-147 | the per-ID re-check inside the build loop never fails once the first scan found nothing, so the `InvalidArgument` error is unreachable in a sequential call |
| `Device.ReserveWithEmptyTable` | device/device.go:101-126 | against the empty table a new plugin starts with, every non-empty request fails listing every requested ID, and the error text is `unknown device IDs: ` followed by the IDs joined with `,` |
| `Device.ErrorText` | device/device.go:101-103 | every error message starts with the fixed prefix `unknown device IDs: `, whatever the list of unknown IDs |
| `Device.ErrorTextListsIDs` | device/device.go:101-103 | for a non-empty list in which no ID contains a comma, the text after the prefix splits back into exactly the unknown IDs, in order |
| `Device.NotExistingIDsMembers` | device/device.go:117-122 | an ID is in the unknown-ID list if and only if it was requested and is not a key of the table |
| `Device.NotExistingIDsCount` | device/device.go:117-122 | an absent ID occurs in the list as often as in the request (duplicates repeated); a present ID never occurs |
| `Device.NotExistingIDsAppend` | device/device.go:118-122 | the scan of a concatenation is the concatenation of the scans, so the list keeps request order |
| `Device.NotExistingIDsEmpty` | device/device.go:118-126 | the list is empty if and only if every requested ID is a key of the table |
| `Device.NotExistingIDsAllAbsent` | device/device.go:118-122 | when no requested ID is in the table, the list is the whole request |
| `Device.BuildAllKnown` | device/device.go:128-161 | when the first k IDs are known, the build after k positions succeeds with the library mount, k device nodes and k env entries laid out by position |
| `Device.BuildFirstUnknown` | device/device.go:143-147 | if some position's ID is absent, the build fails with `InvalidArgument` naming the first absent ID |
| `Device.BuildFailureSticks` | device/device.go:145-147 | once the build loop has returned an error, the outcome no longer changes |
| `Device.LayoutStep` | device/device.go:149-160 | one more loop iteration (env entry and device node for the next position) keeps the reservation laid out by position |
| `Device.EnvKeysMembers` | device/device.go:150 | the key set of a reservation for n devices holds exactly `DEVICE_<i>` for the positions i below n |
| `Device.EnvKeyFresh` | device/device.go:150 | the key written at a position is not already among the keys of earlier positions |
| `Device.EnvsLayoutStep` | device/device.go:150 | writing `DEVICE_<n>` after positions 0..n-1 adds a new key and keeps every earlier entry, so duplicate IDs still get distinct keys |
| `Device.EnvKeyInjective` | device/device.go:150 | distinct positions give distinct env keys |
| `Text.NatToString` | device/device.go:150-155 | the `%d` rendering of an index is a non-empty string of decimal digits without a leading zero |
| `Text.ParseNatToString` | device/device.go:150-155 | reading the rendered digits back gives the index |
| `Text.NatToStringInjective` | device/device.go:150-155 | distinct indices render differently |
| `Text.PrefixedNatInjective` | device/device.go:150-155 | a fixed prefix followed by a rendered index determines the index |
| `Text.SplitJoin` | device/device.go:102 | splitting a comma join of comma-free parts on the comma gives back the parts |
| `Text.SplitPrefix` | device/device.go:102 | text without the separator attaches to the first part of a split |

## Left out

- The fingerprinting goroutine `doFingerprint` (device/fingerprint.go:12-28) is left out. It is a timer, a `select` on context cancellation, channel sends and a `close`, so it is only about concurrency and timing.
- `writeFingerprintToChannel` (device/fingerprint.go:37-55) is left out. It sends one hard-coded device group whose ID comes from a random UUID. It never writes the device table.
- The device table therefore gets filled only by code outside this model. The model treats the table as the plugin's state. A client can set it, as `ReserveScenario` does, so that the success path can be specified.
- The read lock around the first scan (device/device.go:116, 123) is left out. `Reserve` is modelled as a sequential call. A concurrent table update between the scan and the build is the only way the `InvalidArgument` branch could be reached, and that race is outside the model.
- The gRPC status text of the `InvalidArgument` error (device/device.go:146) is left out. It is built by a foreign library, so the model keeps only the error kind and the offending ID.
- `PluginInfo`, `ConfigSchema`, `SetConfig`, `Stats` and `Fingerprint` (device/device.go:62-95) are left out. They return constants, accept anything, or return channels. None has behaviour to state.
- The logger field (device/device.go:41, 53) is left out.
- Nomad's `ContainerReservation`, `Mount` and `DeviceSpec` structs become plain datatypes.
- Go's `nil` maps and slices in the empty reservation are modelled as empty ones.
- `NatToString` models `%d` only for the non-negative indices it is used on.
