// The per-key quota of src/integrator/tracker.rs with configured integrators, so a key without an
// entry is refused and no entry is ever added or removed.
module IntegratorTracker {
  type ApiKey = string

  const U64_MAX: nat := 0xFFFF_FFFF_FFFF_FFFF

  datatype IntegratorState = IntegratorState(quota: nat, used: nat)

  type Quotas = map<ApiKey, IntegratorState>

  datatype Deduction = Deducted(remaining: nat) | InsufficientQuota

  function Fresh(integrators: map<ApiKey, nat>): Quotas {
    map key | key in integrators :: IntegratorState(integrators[key], 0)
  }

  function Remaining(s: IntegratorState): nat {
    if s.quota == 0 then U64_MAX else if s.used <= s.quota then s.quota - s.used else 0
  }

  // A quota of 0 is unlimited.
  predicate CanDeduct(m: Quotas, key: ApiKey) {
    key in m && (m[key].quota == 0 || m[key].used < m[key].quota)
  }

  function AfterDeduct(m: Quotas, key: ApiKey): Quotas {
    if CanDeduct(m, key) then m[key := m[key].(used := m[key].used + 1)] else m
  }

  function AfterRefund(m: Quotas, key: ApiKey): Quotas {
    if key in m then m[key := m[key].(used := if m[key].used > 0 then m[key].used - 1 else 0)] else m
  }

  function GetRemaining(m: Quotas, key: ApiKey): nat {
    if key in m then Remaining(m[key]) else 0
  }

  class Tracker {
    var state: Quotas

    // Every configured integrator starts with nothing used.
    constructor (integrators: map<ApiKey, nat>)
      ensures state == Fresh(integrators)
    {
      state := Fresh(integrators);
    }

    method CheckAndDeduct(key: ApiKey) returns (d: Deduction)
      modifies this
      ensures state == AfterDeduct(old(state), key)
      ensures d.Deducted? <==> CanDeduct(old(state), key)
      ensures d.Deducted? ==> d.remaining == GetRemaining(state, key)
    {
      if key !in state {
        return InsufficientQuota;
      }
      var entry := state[key];
      if entry.quota > 0 && entry.used >= entry.quota {
        return InsufficientQuota;
      }
      entry := entry.(used := entry.used + 1);
      state := state[key := entry];
      return Deducted(Remaining(entry));
    }

    method Refund(key: ApiKey)
      modifies this
      ensures state == AfterRefund(old(state), key)
    {
      if key in state {
        var used := state[key].used;
        state := state[key := state[key].(used := if used > 0 then used - 1 else 0)];
      }
    }

    method CurrentRemaining(key: ApiKey) returns (remaining: nat)
      ensures remaining == GetRemaining(state, key)
    {
      if key !in state {
        return 0;
      }
      return Remaining(state[key]);
    }
  }
}
