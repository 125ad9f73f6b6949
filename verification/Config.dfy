/** The part of configuration loading that the daemon relies on: device names are unique. */
module Config {
  import opened Wrappers

  /** `problem` is what checking the device on its own finds wrong with it. */
  datatype Device = Device(name: string, schedule: string, problem: Option<string>)

  datatype Config = Config(devices: seq<Device>)

  datatype ConfigError = DuplicateDevice(name: string) | Invalid(problem: string)

  function FindDevice(devices: seq<Device>, name: string): Option<Device> {
    if devices == [] then None
    else if devices[0].name == name then Some(devices[0])
    else FindDevice(devices[1..], name)
  }

  ghost predicate DistinctNames(devices: seq<Device>) {
    forall i, j :: 0 <= i < j < |devices| ==> devices[i].name != devices[j].name
  }

  ghost predicate Sound(devices: seq<Device>) {
    DistinctNames(devices) && forall d <- devices :: d.problem.None?
  }

  /** Device `k` is the first with a fault, and `e` is that fault. */
  ghost predicate FirstFault(devices: seq<Device>, k: nat, e: ConfigError) {
    && k < |devices|
    && Sound(devices[..k])
    && if exists j :: 0 <= j < k && devices[j].name == devices[k].name
       then e == DuplicateDevice(devices[k].name)
       else devices[k].problem.Some? && e == Invalid(devices[k].problem.value)
  }

  /** Checks the devices in order and reports the first fault: a name seen before, or else
      a problem of the device itself. */
  method ValidateDevices(devices: seq<Device>) returns (fault: Option<ConfigError>)
    ensures fault.None? <==> Sound(devices)
    ensures fault.Some? ==> exists k :: FirstFault(devices, k, fault.value)
  {
    var seen: set<string> := {};
    for k := 0 to |devices|
      invariant seen == set d <- devices[..k] :: d.name
      invariant Sound(devices[..k])
    {
      var d := devices[k];
      assert devices[..k + 1] == devices[..k] + [d];
      assert forall j :: 0 <= j < k ==> devices[..k][j] == devices[j] == devices[..k + 1][j];
      assert devices[..k + 1][k] == d;
      assert d.name in seen <==> exists j :: 0 <= j < k && devices[j].name == d.name;
      if d.name in seen {
        assert !Sound(devices[..k + 1]);
        PrefixFault(devices, k);
        assert FirstFault(devices, k, DuplicateDevice(d.name));
        return Some(DuplicateDevice(d.name));
      }
      seen := seen + {d.name};
      if d.problem.Some? {
        assert !Sound(devices[..k + 1]) by { assert d in devices[..k + 1]; }
        PrefixFault(devices, k);
        assert FirstFault(devices, k, Invalid(d.problem.value));
        return Some(Invalid(d.problem.value));
      }
    }
    assert devices[..|devices|] == devices;
    return None;
  }

  lemma PrefixFault(devices: seq<Device>, k: nat)
    requires k < |devices| && !Sound(devices[..k + 1])
    ensures !Sound(devices)
  {
    var p := devices[..k + 1];
    assert forall j :: 0 <= j <= k ==> p[j] == devices[j];
    assert forall d <- p :: d in devices;
  }

  /** Looking a device up by its own name finds it, for every device, exactly when no two
      different devices share a name. */
  lemma LookupFindsItself(devices: seq<Device>)
    ensures (forall d <- devices :: FindDevice(devices, d.name) == Some(d)) <==>
            (forall d <- devices, e <- devices :: d.name == e.name ==> d == e)
  {
    forall d <- devices ensures FindDevice(devices, d.name).Some? && FindDevice(devices, d.name).value in devices
      && FindDevice(devices, d.name).value.name == d.name
    {
      FindsSomeone(devices, d);
    }
    if forall d <- devices :: FindDevice(devices, d.name) == Some(d) {
      forall d <- devices, e <- devices | d.name == e.name ensures d == e {
        assert FindDevice(devices, d.name) == Some(d) && FindDevice(devices, e.name) == Some(e);
      }
    }
  }

  /** Looking up a name finds the first device that has it, and nothing exactly when none
      has. */
  lemma {:induction false} LookupFindsFirst(devices: seq<Device>, name: string)
    ensures FindDevice(devices, name).None? <==> forall d <- devices :: d.name != name
    ensures FindDevice(devices, name).Some? ==>
      exists i :: (0 <= i < |devices| && devices[i] == FindDevice(devices, name).value && devices[i].name == name
                   && forall j :: 0 <= j < i ==> devices[j].name != name)
  {
    if devices != [] && devices[0].name != name {
      var rest := devices[1..];
      LookupFindsFirst(rest, name);
      assert forall j :: 0 <= j < |rest| ==> rest[j] == devices[j + 1];
      assert forall d <- devices :: d == devices[0] || d in rest;
      if FindDevice(rest, name).Some? {
        var i :| 0 <= i < |rest| && rest[i] == FindDevice(rest, name).value && rest[i].name == name
          && forall j :: 0 <= j < i ==> rest[j].name != name;
        assert forall j :: 0 < j < i + 1 ==> devices[j] == rest[j - 1];
        assert devices[i + 1].name == name;
      }
    }
  }

  lemma {:induction false} FindsSomeone(devices: seq<Device>, d: Device)
    requires d in devices
    ensures var r := FindDevice(devices, d.name); r.Some? && r.value in devices && r.value.name == d.name
  {
    if devices[0].name != d.name {
      FindsSomeone(devices[1..], d);
    }
  }
}
