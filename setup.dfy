/// The two pieces of decision logic in the benchmark's setup phase: the
/// ordered fallback over Direct3D driver types when the device is created,
/// and the mapping of the transform's stream-ID query result.  The platform
/// calls themselves are parameters: `create` gives the status that device
/// creation returns for a driver type, and the stream-ID query is given by
/// its status and the IDs it reported.
module DeviceSetup {
  import opened Status

  datatype DriverType = Hardware | Warp | Reference

  /// The driver types to try, most preferred first.
  const DriverTypes: seq<DriverType> := [Hardware, Warp, Reference]

  /// Tries each driver type in order until device creation succeeds, then
  /// applies CHECK_HR to the last status.  `attempts` lists the driver
  /// types passed to `create`, in the order they were passed.
  method CreateDevice(create: DriverType -> HResult)
      returns (r: Result<DriverType, HResult>, attempts: seq<DriverType>)
    ensures 1 <= |attempts| <= |DriverTypes| && attempts == DriverTypes[..|attempts|]
    ensures forall j :: 0 <= j < |attempts| - 1 ==> Failed(create(attempts[j]))
    ensures r.Ok? ==> r.value == attempts[|attempts| - 1] && Succeeded(create(r.value))
    ensures r.Err? ==> attempts == DriverTypes && Failed(r.error)
                       && r.error == create(DriverTypes[|DriverTypes| - 1])
  {
    // Before the loop, hr holds the successful result of starting the
    // media platform.
    var hr := S_OK;
    attempts := [];
    var index := 0;
    while index < |DriverTypes|
      invariant 0 <= index <= |DriverTypes|
      invariant attempts == DriverTypes[..index]
      invariant forall j :: 0 <= j < index ==> Failed(create(attempts[j]))
      invariant index > 0 ==> hr == create(DriverTypes[index - 1])
    {
      hr := create(DriverTypes[index]);
      attempts := attempts + [DriverTypes[index]];
      if Succeeded(hr) {
        // Device creation succeeded; no need to try the others.
        break;
      }
      index := index + 1;
    }
    match CheckHr(hr)
    case Ok(_) =>
      r := Ok(attempts[|attempts| - 1]);
    case Err(e) =>
      r := Err(e);
  }

  /// A DWORD stream identifier.
  newtype Dword = x: int | 0 <= x < 0x1_0000_0000

  /// Maps the result of GetStreamIDs(1, &in, 1, &out): a transform that
  /// does not implement the query has fixed stream IDs 0 and 0, which counts
  /// as success; any other failure is fatal; a success keeps the reported IDs.
  function StreamIds(hr: HResult, input: Dword, output: Dword): (r: Result<(Dword, Dword), HResult>)
    ensures r.Ok? <==> Succeeded(hr) || hr == E_NOTIMPL
    ensures hr == E_NOTIMPL ==> r == Ok((0, 0))
    ensures Succeeded(hr) ==> r == Ok((input, output))
    ensures r.Err? ==> r.error == hr && Failed(hr)
  {
    var (status, ids) := if hr == E_NOTIMPL then (S_OK, (0 as Dword, 0 as Dword)) else (hr, (input, output));
    match CheckHr(status)
    case Ok(_) => Ok(ids)
    case Err(e) => Err(e)
  }
}
