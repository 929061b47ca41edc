/**
 * The hub device of ArduinoCoreTestDevice.cpp: the firmware identity and
 * version check, device detection from the port name, and the
 * initialized/shutdown life cycle.  Each RPC call's outcome, and each
 * exception, is an input.
 */
module ArduinoHub {

  // Micro-Manager status codes
  const DEVICE_OK: int := 0
  const ERR_VERSION_MISMATCH: int := 109
  // Defined in rdlmm/DeviceError.h, which is not part of this model; any
  // value other than DEVICE_OK serves.
  const ERR_FIRMWARE_NOT_FOUND: int := 1001

  const FIRMWARE_NAME: string := "MM-Ardulingua"
  const MIN_FIRMWARE_VERSION: int := 1
  const MAX_FIRMWARE_VERSION: int := 2

  /** One client_.call_get: its error code and returned value, or an exception. */
  datatype Reply<T> = Reply(error: int, value: T) | Threw

  datatype DetectionStatus = Misconfigured | CanNotCommunicate | CanCommunicate

  /** What the host reports from the steps of Initialize around the version check. */
  datatype HostResults = HostResults(nameProperty: int, foo: int, barA: int, barB: int, updateStatus: int)

  /** Both identity queries answered without error, and the firmware is the expected one. */
  predicate Identified(fname: Reply<string>, fver: Reply<int>) {
    fname.Reply? && fname.error == 0 && fname.value == FIRMWARE_NAME
    && fver.Reply? && fver.error == 0
  }

  /** The version window of Initialize. */
  predicate VersionAccepted(v: int) {
    MIN_FIRMWARE_VERSION <= v <= MAX_FIRMWARE_VERSION
  }

  lemma VersionWindow(v: int)
    ensures VersionAccepted(v) <==> v == 1 || v == 2
  {
  }

  /** tolower in the "C" locale. */
  function LowerChar(c: char): char {
    if 'A' <= c <= 'Z' then (c as int + 32) as char else c
  }

  function Lower(s: string): (t: string)
    ensures |t| == |s|
    ensures forall i :: 0 <= i < |s| ==> t[i] == LowerChar(s[i])
  {
    if s == [] then [] else [LowerChar(s[0])] + Lower(s[1..])
  }

  /** Lowering twice is lowering once. */
  lemma LowerIdempotent(s: string)
    ensures Lower(Lower(s)) == Lower(s)
  {
  }

  /** The port-name test of DetectDevice: non-empty and neither "undefined" nor "unknown", in any case. */
  predicate ShouldProbe(port: string) {
    var p := Lower(port);
    0 < |p| && p != "undefined" && p != "unknown"
  }

  lemma ShouldProbeIgnoresCase(port: string)
    ensures ShouldProbe(Lower(port)) == ShouldProbe(port)
  {
    LowerIdempotent(port);
  }

  /** The names the host uses for "no port" are refused in any case. */
  lemma ShouldProbeRefusesUndefined()
    ensures !ShouldProbe("") && !ShouldProbe("Undefined")
  {
    LowerLetters("Undefined", "undefined");
  }

  lemma ShouldProbeRefusesUnknown()
    ensures !ShouldProbe("UNKNOWN")
  {
    LowerLetters("UNKNOWN", "unknown");
  }

  /** A real port name is probed. */
  lemma ShouldProbePortName()
    ensures ShouldProbe("COM3")
  {
    LowerLetters("COM3", "com3");
  }

  lemma LowerLetters(s: string, t: string)
    requires |s| == |t| && forall i :: 0 <= i < |s| ==> LowerChar(s[i]) == t[i]
    ensures Lower(s) == t
  {
  }

  /** The lowercasing loop of DetectDevice, in place over the copy of the port name. */
  method LowerInPlace(a: array<char>)
    modifies a
    ensures a[..] == Lower(old(a[..]))
  {
    var i := 0;
    while i < a.Length
      invariant 0 <= i <= a.Length
      invariant forall j :: 0 <= j < i ==> a[j] == LowerChar(old(a[j]))
      invariant forall j :: i <= j < a.Length ==> a[j] == old(a[j])
    {
      a[i] := LowerChar(a[i]);
      i := i + 1;
    }
  }

  class Hub {
    var port: string
    var initialized: bool
    var portAvailable: bool
    var invertedLogic: bool
    var timedOutputActive: bool
    var version: int

    /**
     * The constructor sets initialized_ and portAvailable_ only; the other
     * flags and version_ are left uninitialized by the source, so here
     * they are whatever the caller passes.
     */
    constructor (port: string, invertedLogic: bool, timedOutputActive: bool, version: int)
      ensures this.port == port && !initialized && !portAvailable
      ensures this.invertedLogic == invertedLogic && this.timedOutputActive == timedOutputActive
      ensures this.version == version
    {
      this.port := port;
      initialized := false;
      portAvailable := false;
      this.invertedLogic := invertedLogic;
      this.timedOutputActive := timedOutputActive;
      this.version := version;
    }

    /**
     * GetControllerVersion: ask "?fname", then (only for the expected
     * firmware) "?fver".  version is 0 unless both succeed; an RPC error
     * comes back as it is, a wrong name or an exception as
     * ERR_FIRMWARE_NOT_FOUND.  calls lists the RPC methods invoked.
     */
    method GetControllerVersion(fname: Reply<string>, fver: Reply<int>) returns (ret: int, version: int, calls: seq<string>)
      ensures ret == DEVICE_OK <==> Identified(fname, fver)
      ensures version == (if Identified(fname, fver) then fver.value else 0)
      ensures fname.Reply? && fname.error != 0 ==> ret == fname.error && calls == ["?fname"]
      ensures fname.Threw? ==> ret == ERR_FIRMWARE_NOT_FOUND && calls == ["?fname"]
      ensures fname.Reply? && fname.error == 0 && fname.value != FIRMWARE_NAME ==>
                ret == ERR_FIRMWARE_NOT_FOUND && calls == ["?fname"]
      ensures fname.Reply? && fname.error == 0 && fname.value == FIRMWARE_NAME ==>
                calls == ["?fname", "?fver"]
                && (fver.Threw? ==> ret == ERR_FIRMWARE_NOT_FOUND)
                && (fver.Reply? && fver.error != 0 ==> ret == fver.error)
    {
      version := 0;
      calls := ["?fname"];
      if fname.Threw? {
        return ERR_FIRMWARE_NOT_FOUND, version, calls;
      }
      if fname.error != 0 {
        return fname.error, version, calls;
      }
      var found := fname.value == FIRMWARE_NAME;
      if !found {
        return ERR_FIRMWARE_NOT_FOUND, version, calls;
      }
      calls := calls + ["?fver"];
      if fver.Threw? {
        return ERR_FIRMWARE_NOT_FOUND, version, calls;
      }
      if fver.error != 0 {
        return fver.error, version, calls;
      }
      version := fver.value;
      return DEVICE_OK, version, calls;
    }

    /**
     * DetectDevice.  hostFault says that one of the host calls that set up
     * the serial port before the version query throws; the status is then
     * the one reached so far.
     */
    method DetectDevice(fname: Reply<string>, fver: Reply<int>, hostFault: bool) returns (result: DetectionStatus)
      ensures initialized ==> result == CanCommunicate
      ensures !initialized && !ShouldProbe(port) ==> result == Misconfigured
      ensures !initialized && ShouldProbe(port) ==>
                result != Misconfigured
                && (result == CanCommunicate <==> !hostFault && Identified(fname, fver))
    {
      if initialized {
        return CanCommunicate;
      }
      result := Misconfigured;
      var portLowerCase := new char[|port|](i requires 0 <= i < |port| reads this => port[i]);
      assert portLowerCase[..] == port;
      LowerInPlace(portLowerCase);
      var p := portLowerCase[..];
      if 0 < |p| && p != "undefined" && p != "unknown" {
        result := CanNotCommunicate;
        if hostFault {
          return result;
        }
        var ret, v, calls := GetControllerVersion(fname, fver);
        if ret == DEVICE_OK {
          result := CanCommunicate;
        }
      }
    }

    /**
     * Initialize.  Fails with the host's error when the name property
     * cannot be created, with GetControllerVersion's error, with
     * ERR_VERSION_MISMATCH outside the version window, or with the first
     * failing host step after it; initialized_ is set only on success.
     */
    method Initialize(fname: Reply<string>, fver: Reply<int>, host: HostResults) returns (ret: int)
      modifies this
      ensures port == old(port) && portAvailable == old(portAvailable)
      ensures invertedLogic == old(invertedLogic) && timedOutputActive == old(timedOutputActive)
      ensures host.nameProperty != DEVICE_OK ==> ret == host.nameProperty && version == old(version)
      ensures host.nameProperty == DEVICE_OK ==> version == (if Identified(fname, fver) then fver.value else 0)
      ensures host.nameProperty == DEVICE_OK && !Identified(fname, fver) ==>
                ret != DEVICE_OK
                && (fname.Threw? ==> ret == ERR_FIRMWARE_NOT_FOUND)
                && (fname.Reply? && fname.error != 0 ==> ret == fname.error)
                && (fname.Reply? && fname.error == 0 && fname.value != FIRMWARE_NAME ==> ret == ERR_FIRMWARE_NOT_FOUND)
                && (fname.Reply? && fname.error == 0 && fname.value == FIRMWARE_NAME ==>
                      (fver.Threw? ==> ret == ERR_FIRMWARE_NOT_FOUND)
                      && (fver.Reply? && fver.error != 0 ==> ret == fver.error))
      ensures host.nameProperty == DEVICE_OK && Identified(fname, fver) && !VersionAccepted(fver.value) ==>
                ret == ERR_VERSION_MISMATCH
      ensures host.nameProperty == DEVICE_OK && Identified(fname, fver) && VersionAccepted(fver.value) ==>
                ret == (if host.foo != DEVICE_OK then host.foo
                        else if host.barA != DEVICE_OK then host.barA
                        else if host.barB != DEVICE_OK then host.barB
                        else host.updateStatus)
      ensures ret == DEVICE_OK <==>
                host.nameProperty == DEVICE_OK && Identified(fname, fver) && VersionAccepted(fver.value)
                && host.foo == DEVICE_OK && host.barA == DEVICE_OK && host.barB == DEVICE_OK
                && host.updateStatus == DEVICE_OK
      ensures initialized == (ret == DEVICE_OK || old(initialized))
    {
      if host.nameProperty != DEVICE_OK {
        return host.nameProperty;
      }
      var v, calls;
      ret, v, calls := GetControllerVersion(fname, fver);
      version := v;
      if ret != DEVICE_OK {
        return ret;
      }
      if version < MIN_FIRMWARE_VERSION || version > MAX_FIRMWARE_VERSION {
        return ERR_VERSION_MISMATCH;
      }
      if host.foo != DEVICE_OK {
        return host.foo;
      }
      if host.barA != DEVICE_OK {
        return host.barA;
      }
      if host.barB != DEVICE_OK {
        return host.barB;
      }
      if host.updateStatus != DEVICE_OK {
        return host.updateStatus;
      }
      initialized := true;
      return DEVICE_OK;
    }

    method Shutdown() returns (ret: int)
      modifies this
      ensures ret == DEVICE_OK && !initialized
      ensures port == old(port) && portAvailable == old(portAvailable) && version == old(version)
      ensures invertedLogic == old(invertedLogic) && timedOutputActive == old(timedOutputActive)
    {
      initialized := false;
      return DEVICE_OK;
    }

    method IsPortAvailable() returns (b: bool)
      ensures b == portAvailable
    {
      b := portAvailable;
    }

    method IsLogicInverted() returns (b: bool)
      ensures b == invertedLogic
    {
      b := invertedLogic;
    }

    method IsTimedOutputActive() returns (b: bool)
      ensures b == timedOutputActive
    {
      b := timedOutputActive;
    }

    method SetTimedOutput(active: bool)
      modifies this
      ensures timedOutputActive == active
      ensures port == old(port) && initialized == old(initialized) && portAvailable == old(portAvailable)
      ensures invertedLogic == old(invertedLogic) && version == old(version)
    {
      timedOutputActive := active;
    }
  }

  /** SetTimedOutput(a) followed by IsTimedOutputActive() gives a back. */
  method SetThenQueryTimedOutput(h: Hub, active: bool) returns (b: bool)
    modifies h
    ensures b == active
  {
    h.SetTimedOutput(active);
    b := h.IsTimedOutputActive();
  }
}
