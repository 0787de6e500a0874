/// Status codes as the benchmark sees them: 32-bit HRESULT values, the
/// SUCCEEDED/FAILED tests on them, and a Result type for the fatal CHECK
/// paths.
module Status {

  /// A successful value or the error that ended the run.
  datatype Result<T, E> = Ok(value: T) | Err(error: E)

  /// An HRESULT is a signed 32-bit integer.
  newtype HResult = x: int | -0x8000_0000 <= x < 0x8000_0000

  /// Reinterprets the unsigned bit pattern `u` (as written in the platform
  /// headers, e.g. 0x80004001) as the signed 32-bit HRESULT it denotes.
  function FromBits(u: int): (hr: HResult)
    requires 0 <= u < 0x1_0000_0000
    ensures (hr as int) % 0x1_0000_0000 == u
    ensures hr < 0 <==> u >= 0x8000_0000
  {
    if u < 0x8000_0000 then u as HResult else (u - 0x1_0000_0000) as HResult
  }

  /// SUCCEEDED(hr): the severity bit is clear.
  predicate Succeeded(hr: HResult) {
    hr >= 0
  }

  /// FAILED(hr): the severity bit is set.
  predicate Failed(hr: HResult) {
    hr < 0
  }

  const S_OK: HResult := 0

  /// E_NOTIMPL, 0x80004001.
  const E_NOTIMPL: HResult := FromBits(0x8000_4001)

  /// CHECK_HR(hr, ...): a failed status is fatal and ends the run with that
  /// status; any success code lets the run go on.
  function CheckHr(hr: HResult): (r: Result<(), HResult>)
    ensures r.Ok? <==> !Failed(hr)
    ensures r.Err? ==> r.error == hr
  {
    if Failed(hr) then Err(hr) else Ok(())
  }

  lemma NotImplementedIsFailure()
    ensures Failed(E_NOTIMPL) && E_NOTIMPL as int == 0x8000_4001 - 0x1_0000_0000
  {
  }
}
