/** How long a recorded device keeps its place in the log. */
module SyncDevices {
  import opened Domain
  import opened SyncLog
  import opened SyncRuns

  /** The event records this device's cursor anew. */
  predicate Records(s: Sys, e: Event, device: string) {
    (e.Record? && e.device == device) || (e.SaveCursor? && s.client.device == device)
  }

  lemma StepKeepsDevice(s: Sys, e: Event)
    ensures Step(s, e).client.device == s.client.device
  {
  }

  lemma {:induction false} RunKeepsDevice(s: Sys, es: seq<Event>)
    ensures Run(s, es).client.device == s.client.device
  {
    if es == [] {
    } else {
      RunKeepsDevice(s, es[..|es| - 1]);
      StepKeepsDevice(Run(s, es[..|es| - 1]), es[|es| - 1]);
    }
  }

  /** A compaction takes exactly the devices last seen before its cutoff; nothing else takes one. */
  lemma DeviceStep(s: Sys, e: Event, device: string)
    requires !Records(s, e, device)
    ensures device in Step(s, e).log.devices <==>
            device in s.log.devices && (e.Compact? ==> s.log.devices[device].lastSeen >= e.cutoff)
    ensures device in Step(s, e).log.devices ==> Step(s, e).log.devices[device] == s.log.devices[device]
  {
  }

  /** A device recorded at `now` and not recorded again is still there exactly when no compaction since had a later
      cutoff. */
  lemma {:induction false} SurvivesIff(s: Sys, device: string, user: string, cursor: nat, now: nat, es: seq<Event>)
    requires cursor < U64 && forall i :: 0 <= i < |es| ==> !Records(s, es[i], device)
    ensures var t := Run(Step(s, Record(device, user, cursor, now)), es);
            && (device in t.log.devices <==> forall i :: 0 <= i < |es| && es[i].Compact? ==> es[i].cutoff <= now)
            && (device in t.log.devices ==>
                  t.log.devices[device].lastSeen == now && t.log.devices[device].userId == user
                  && t.log.devices[device].epoch == (if s.log.epochRow.Some? then s.log.epochRow.value else 1)
                  && t.log.devices[device].cursor == if cursor < 0x8000_0000_0000_0000 then cursor
                                                     else cursor - 0x1_0000_0000_0000_0000)
  {
    var s1 := Step(s, Record(device, user, cursor, now));
    if es == [] {
    } else {
      var init, e := es[..|es| - 1], es[|es| - 1];
      SurvivesIff(s, device, user, cursor, now, init);
      RunKeepsDevice(s1, init);
      DeviceStep(Run(s1, init), e, device);
      assert forall i :: 0 <= i < |init| ==> es[i] == init[i];
    }
  }
}
