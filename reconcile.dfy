/** `ensure`: reads the stored rrset once and issues at most one REPLACE or DELETE to
    bring it to the desired state (powerdns_record.py, lines 275-393). */
module Reconcile {
  import opened Wrappers
  import opened Text
  import opened Content
  import opened Api
  import opened Client

  datatype State = Present | Absent

  /** The module parameters `ensure` reads. `content` is None when the list is not given. */
  datatype Params = Params(
    content: Option<seq<string>>,
    disabled: bool,
    exclusive: bool,
    name: string,
    rtype: string,
    setPtr: bool,
    ttl: int,
    zone: string,
    state: State,
    checkMode: bool)

  /** Which write failed, as the "Could not create/update/delete record" messages tell. */
  datatype Attempt = Creating | Updating | Deleting

  /** How an invocation fails: a GET that raises (not caught in `ensure`), a write or
      its re-read that raises (caught, reported per attempt), the IndexError of
      `serial` on short SOA content, and the TypeError of iterating a missing list. */
  datatype Failure =
    | ReadFailed(error: PowerDNSError)
    | WriteFailed(attempt: Attempt, error: PowerDNSError)
    | SerialMissing
    | ContentMissing

  /** The pair `(changed, record)`; record None is Python's None after a delete. */
  datatype Outcome = Outcome(changed: bool, record: Option<RRSet>)

  /** What `ensure` decides to do once it has read the stored rrset. */
  datatype Plan =
    | Keep                          // no call: (False, record)
    | CreateWith(content: seq<string>) // nothing stored: REPLACE with the content as given
    | Merge                         // present and stored: REPLACE with the set-built payload
    | Prune(remainder: seq<string>) // absent, not exclusive: REPLACE with what is left
    | DeleteAll                     // absent, exclusive: DELETE

  // ---------------------------------------------------------------------------
  // Name normalisation

  /** The zone with its trailing dots removed. */
  function ZoneName(zone: string): string
  {
    TrimEnd(zone, '.')
  }

  /** The record name `ensure` works with: trailing dots removed, and `.zone` appended
      unless the zone already occurs somewhere inside the name. */
  function RecordName(name: string, zone: string): (r: string)
    ensures !EndsWith(r, '.')
    ensures IsSubstring(ZoneName(zone), r)
    ensures IsSubstring(ZoneName(zone), TrimEnd(name, '.')) ==> r == TrimEnd(name, '.')
    ensures !IsSubstring(ZoneName(zone), TrimEnd(name, '.')) ==> r == TrimEnd(name, '.') + "." + ZoneName(zone)
  {
    var n := TrimEnd(name, '.');
    var z := ZoneName(zone);
    if IsSubstring(z, n) then n
    else
      assert z != [] by { assert "" <= n[0..]; }
      var r := n + "." + z;
      assert z <= r[|n| + 1..];
      r
  }

  /** The key the rrset is stored under: the canonical record name. */
  function Key(p: Params): string
  {
    MakeCanonical(RecordName(p.name, p.zone))
  }

  // ---------------------------------------------------------------------------
  // List helpers

  /** The distinct items of a list: Python's `set(...)`. */
  function Distinct(s: seq<string>): set<string>
  {
    set x | x in s
  }

  predicate NoDuplicates(s: seq<string>)
  {
    forall i, j :: 0 <= i < j < |s| ==> s[i] != s[j]
  }

  /** `[x for x in xs if x not in ys]`: the items of xs that are not in ys, in order. */
  function Remove(xs: seq<string>, ys: seq<string>): (r: seq<string>)
    ensures |r| <= |xs|
    decreases |xs|
  {
    if xs == [] then [] else (if xs[0] in ys then [] else [xs[0]]) + Remove(xs[1..], ys)
  }

  /** The filter keeps exactly the items not in ys, loses length exactly when one of
      xs is in ys, and keeps items distinct. */
  lemma {:induction false} RemoveFacts(xs: seq<string>, ys: seq<string>)
    ensures forall x :: x in Remove(xs, ys) <==> x in xs && x !in ys
    ensures |Remove(xs, ys)| <= |xs|
    ensures |Remove(xs, ys)| == |xs| <==> forall i :: 0 <= i < |xs| ==> xs[i] !in ys
    ensures NoDuplicates(xs) ==> NoDuplicates(Remove(xs, ys))
    decreases |xs|
  {
    if xs != [] {
      var tail, rest := xs[1..], Remove(xs[1..], ys);
      RemoveFacts(tail, ys);
      assert xs == [xs[0]] + tail;
      assert forall i :: 1 <= i < |xs| ==> xs[i] == tail[i - 1];
      assert forall x :: x in xs <==> x == xs[0] || x in tail;
      if xs[0] in ys {
        assert Remove(xs, ys) == rest;
      } else {
        assert Remove(xs, ys) == [xs[0]] + rest;
      }
    }
  }

  /** The sanitised `content`, or None when the list was not given. */
  function SanitizedContent(rtype: string, content: Option<seq<string>>): Option<seq<string>>
  {
    if content.Some? then Some(Sanitize(rtype, content.value)) else None
  }

  // ---------------------------------------------------------------------------
  // The decision

  /** The items the update loop collects: those that do not match the stored content,
      or all of them when the ttl differs; None when `serial` raises on one of them. */
  function Pending(rtype: string, content: seq<string>, existing: seq<string>, ttlDiffers: bool): (r: Option<seq<string>>)
    ensures r.Some? ==> |r.value| <= |content| && forall x :: x in r.value ==> x in content
    ensures r.None? ==> rtype == "SOA"
    decreases |content|
  {
    if content == [] then Some([])
    else match MatchesExistingContent(rtype, content[0], existing)
      case None => None
      case Some(matched) =>
        match Pending(rtype, content[1..], existing, ttlDiffers)
        case None => None
        case Some(rest) => Some((if !matched || ttlDiffers then [content[0]] else []) + rest)
  }

  /** The decision `ensure` takes from the sanitised content and the stored rrset. */
  function Decide(state: State, exclusive: bool, rtype: string, content: Option<seq<string>>,
                  existing: seq<string>, storedTtl: Option<int>, ttl: int): (r: Result<Plan, Failure>)
    ensures state == Present && r.Ok? ==> r.value.Keep? || r.value.CreateWith? || r.value.Merge?
    ensures state == Absent ==> r.Ok? ==> r.value.Keep? || r.value.Prune? || r.value.DeleteAll?
    ensures r == Err(ContentMissing) <==> existing != [] && content.None? && (state == Present || !exclusive)
    ensures r == Err(SerialMissing) ==> state == Present && rtype == "SOA"
    ensures r.Err? ==> r == Err(ContentMissing) || r == Err(SerialMissing)
    ensures r.Ok? && r.value.CreateWith? ==> existing == []
    ensures existing == [] && state == Absent ==> r == Ok(Keep)
  {
    match state
    case Present =>
      if existing == [] then Ok(CreateWith(if content.Some? then content.value else []))
      else if content.None? then Err(ContentMissing)
      else
        (match Pending(rtype, content.value, existing, storedTtl != Some(ttl))
         case None => Err(SerialMissing)
         case Some(pending) =>
           var toWrite := if |Distinct(existing)| > |Distinct(content.value)| && exclusive then content.value else pending;
           if |toWrite| > 0 then Ok(Merge) else Ok(Keep))
    case Absent =>
      if existing != [] && exclusive then Ok(DeleteAll)
      else if existing != [] then
        if content.None? then Err(ContentMissing)
        else
          var remainder := Remove(existing, content.value);
          if |remainder| != |existing| then Ok(Prune(remainder)) else Ok(Keep)
      else Ok(Keep)
  }

  /** The payload of a Merge. With `exclusive` it is `set(content)` in some order; otherwise
      it is the stored content, in order, followed by the desired items not stored yet,
      each once, in some order. */
  ghost predicate MergePayload(exclusive: bool, content: seq<string>, existing: seq<string>, payload: seq<string>)
  {
    if exclusive then NoDuplicates(payload) && Distinct(payload) == Distinct(content)
    else
      && |existing| <= |payload|
      && payload[..|existing|] == existing
      && NoDuplicates(payload[|existing|..])
      && Distinct(payload[|existing|..]) == Distinct(content) - Distinct(existing)
  }

  /** The stored rrset `ensure` reads for these parameters. */
  ghost function Found(p: Params, rrsets: seq<RRSet>): RRSet
  {
    SelectRRSet(rrsets, Key(p), p.rtype)
  }

  /** The decision for these parameters against this zone. */
  ghost function PlanFor(p: Params, rrsets: seq<RRSet>): Result<Plan, Failure>
  {
    var record := Found(p, rrsets);
    Decide(p.state, p.exclusive, p.rtype, SanitizedContent(p.rtype, p.content), record.Contents(), record.Ttl(), p.ttl)
  }

  /** The REPLACE body `create_record` sends for this content. */
  function ReplaceData(p: Params, content: seq<string>): PatchData
  {
    RequestData(Replace, Key(p), p.rtype, p.setPtr, content, Some(p.disabled), Some(p.ttl))
  }

  /** The DELETE body `delete_record` sends. */
  function DeleteData(p: Params): PatchData
  {
    RequestData(Delete, Key(p), p.rtype, false, [], None, None)
  }

  /** One guarded REPLACE followed by the re-read: in check mode nothing is sent; a
      rejected write leaves the zone as it was and fails the invocation. */
  ghost predicate Replaces(p: Params, content: seq<string>, attempt: Attempt, fault: Option<PowerDNSError>,
                           rrsets0: seq<RRSet>, rrsets1: seq<RRSet>, log0: seq<PatchData>, log1: seq<PatchData>,
                           r: Result<Outcome, Failure>)
  {
    && log1 == log0 + (if p.checkMode then [] else [ReplaceData(p, content)])
    && rrsets1 == (if p.checkMode || fault.Some? then rrsets0
                   else Replaced(rrsets0, Key(p), p.rtype, StoredRecords(content, p.disabled), p.ttl))
    && r == (if !p.checkMode && fault.Some? then Err(WriteFailed(attempt, fault.value))
             else Ok(Outcome(true, Some(SelectRRSet(rrsets1, Key(p), p.rtype)))))
  }

  /** One guarded DELETE: in check mode nothing is sent; there is no re-read. */
  ghost predicate Deletes(p: Params, fault: Option<PowerDNSError>,
                          rrsets0: seq<RRSet>, rrsets1: seq<RRSet>, log0: seq<PatchData>, log1: seq<PatchData>,
                          r: Result<Outcome, Failure>)
  {
    && log1 == log0 + (if p.checkMode then [] else [DeleteData(p)])
    && rrsets1 == (if p.checkMode || fault.Some? then rrsets0 else Without(rrsets0, Key(p), p.rtype))
    && r == (if !p.checkMode && fault.Some? then Err(WriteFailed(Deleting, fault.value)) else Ok(Outcome(true, None)))
  }

  // ---------------------------------------------------------------------------
  // The loops of `ensure`

  /** `acc` followed by the items of `rest`, or None when `rest` is. */
  function Prefixed(acc: seq<string>, rest: Option<seq<string>>): Option<seq<string>>
  {
    if rest.None? then None else Some(acc + rest.value)
  }

  lemma PrefixedAppend(acc: seq<string>, step: seq<string>, rest: Option<seq<string>>)
    ensures Prefixed(acc, Prefixed(step, rest)) == Prefixed(acc + step, rest)
  {
    if rest.Some? {
      assert acc + (step + rest.value) == (acc + step) + rest.value;
    }
  }

  /** The update loop: collects the items to write, stopping at the first that raises. */
  method CollectPending(rtype: string, content: seq<string>, existing: seq<string>, ttlDiffers: bool)
    returns (pending: Option<seq<string>>)
    ensures pending == Pending(rtype, content, existing, ttlDiffers)
  {
    ghost var whole := Pending(rtype, content, existing, ttlDiffers);
    var recordContent: seq<string> := [];
    var i := 0;
    assert content[i..] == content;
    assert whole == Prefixed(recordContent, whole) by {
      if whole.Some? {
        assert recordContent + whole.value == whole.value;
      }
    }
    while i < |content|
      invariant 0 <= i <= |content|
      invariant whole == Prefixed(recordContent, Pending(rtype, content[i..], existing, ttlDiffers))
    {
      PendingAt(rtype, content, existing, ttlDiffers, i);
      var matched := MatchesExistingContent(rtype, content[i], existing);
      if matched.None? {
        return None;
      }
      ghost var step := if !matched.value || ttlDiffers then [content[i]] else [];
      ghost var rest := Pending(rtype, content[i + 1..], existing, ttlDiffers);
      assert Pending(rtype, content[i..], existing, ttlDiffers) == Prefixed(step, rest);
      PrefixedAppend(recordContent, step, rest);
      if !matched.value || ttlDiffers {
        recordContent := recordContent + [content[i]];
      } else {
        assert recordContent + step == recordContent;
      }
      i := i + 1;
    }
    assert content[i..] == [];
    assert recordContent + [] == recordContent;
    pending := Some(recordContent);
  }

  /** One step of the update loop, on the items from position i on. */
  lemma PendingAt(rtype: string, content: seq<string>, existing: seq<string>, ttlDiffers: bool, i: nat)
    requires i < |content|
    ensures var matched := MatchesExistingContent(rtype, content[i], existing);
            var rest := Pending(rtype, content[i + 1..], existing, ttlDiffers);
            Pending(rtype, content[i..], existing, ttlDiffers) ==
              if matched.None? || rest.None? then None
              else Some((if !matched.value || ttlDiffers then [content[i]] else []) + rest.value)
  {
  }

  /** Iterating a Python set: every element once, in an order the model leaves open. */
  method SetToSeq(s: set<string>) returns (items: seq<string>)
    ensures NoDuplicates(items)
    ensures Distinct(items) == s
  {
    items := [];
    var rest := s;
    while rest != {}
      invariant NoDuplicates(items)
      invariant Distinct(items) !! rest
      invariant Distinct(items) + rest == s
      decreases rest
    {
      var x :| x in rest;
      items := items + [x];
      rest := rest - {x};
    }
  }

  /** The REPLACE branch shape: unless in check mode, `create_record`; then the
      re-read. Any PowerDNSError becomes a failure of this attempt. */
  method ReplaceAndRead(p: Params, client: PowerDNSClient, name: string, content: seq<string>, attempt: Attempt)
    returns (r: Result<Outcome, Failure>)
    requires client.readFault.None?
    requires name == RecordName(p.name, p.zone)
    modifies client
    ensures Replaces(p, content, attempt, client.writeFault, old(client.rrsets), client.rrsets, old(client.log), client.log, r)
  {
    if !p.checkMode {
      var written := client.CreateRecord(name, p.rtype, content, p.disabled, p.ttl, p.setPtr);
      if written.Err? {
        return Err(WriteFailed(attempt, written.error));
      }
    }
    var reread := client.GetRecord(name, p.rtype);
    r := Ok(Outcome(true, Some(reread.value)));
  }

  /** The DELETE branch shape: unless in check mode, `delete_record`; then (True, None). */
  method DeleteRecordset(p: Params, client: PowerDNSClient, name: string) returns (r: Result<Outcome, Failure>)
    requires name == RecordName(p.name, p.zone)
    modifies client
    ensures Deletes(p, client.writeFault, old(client.rrsets), client.rrsets, old(client.log), client.log, r)
  {
    if !p.checkMode {
      var deleted := client.DeleteRecord(name, p.rtype);
      if deleted.Err? {
        return Err(WriteFailed(Deleting, deleted.error));
      }
    }
    r := Ok(Outcome(true, None));
  }

  // ---------------------------------------------------------------------------
  // ensure

  /** Carrying out a decision: a failure changes nothing, Keep returns the record read,
      and every other plan is one guarded write whose payload the plan fixes. */
  ghost predicate CarriesOut(p: Params, plan: Result<Plan, Failure>, record: RRSet, fault: Option<PowerDNSError>,
                             rrsets0: seq<RRSet>, rrsets1: seq<RRSet>, log0: seq<PatchData>, log1: seq<PatchData>,
                             r: Result<Outcome, Failure>)
  {
    match plan
    case Err(failure) => r == Err(failure) && log1 == log0 && rrsets1 == rrsets0
    case Ok(Keep) => r == Ok(Outcome(false, Some(record))) && log1 == log0 && rrsets1 == rrsets0
    case Ok(CreateWith(content)) => Replaces(p, content, Creating, fault, rrsets0, rrsets1, log0, log1, r)
    case Ok(Merge) =>
      var desired := SanitizedContent(p.rtype, p.content);
      && desired.Some?
      && exists payload ::
           && MergePayload(p.exclusive, desired.value, record.Contents(), payload)
           && Replaces(p, payload, Updating, fault, rrsets0, rrsets1, log0, log1, r)
    case Ok(Prune(remainder)) => Replaces(p, remainder, Deleting, fault, rrsets0, rrsets1, log0, log1, r)
    case Ok(DeleteAll) => Deletes(p, fault, rrsets0, rrsets1, log0, log1, r)
  }

  /** Every invocation sends at most one PATCH; check mode sends none and changes
      nothing, yet reports the same `changed` as a real run would. */
  lemma CarriesOutFacts(p: Params, plan: Result<Plan, Failure>, record: RRSet, fault: Option<PowerDNSError>,
                        rrsets0: seq<RRSet>, rrsets1: seq<RRSet>, log0: seq<PatchData>, log1: seq<PatchData>,
                        r: Result<Outcome, Failure>)
    requires CarriesOut(p, plan, record, fault, rrsets0, rrsets1, log0, log1, r)
    ensures |log1| <= |log0| + 1
    ensures p.checkMode ==> log1 == log0 && rrsets1 == rrsets0
    ensures plan.Ok? && (p.checkMode || fault.None?) ==> r.Ok? && (r.value.changed <==> plan.value != Keep)
    ensures plan.Ok? && plan.value == DeleteAll && r.Ok? ==> r.value.record.None?
  {
  }

  /** The name normalisation steps of `ensure`. */
  method NormalizeName(name: string, zone: string) returns (recordName: string, zoneName: string)
    ensures recordName == RecordName(name, zone) && zoneName == ZoneName(zone)
  {
    recordName, zoneName := name, zone;
    if EndsWith(recordName, '.') {
      recordName := TrimEnd(recordName, '.');
    }
    if EndsWith(zoneName, '.') {
      zoneName := TrimEnd(zoneName, '.');
    }
    if !IsSubstring(zoneName, recordName) {
      recordName := recordName + "." + zoneName;
    }
  }

  /** The sanitising step of `ensure`: the AAAA loop, or the TXT loop on a copy. */
  method SanitizeContent(rtype: string, given: Option<seq<string>>) returns (content: Option<seq<string>>)
    ensures content == SanitizedContent(rtype, given)
  {
    content := given;
    if content.Some? && content.value != [] {
      if rtype == "AAAA" {
        var lowered := LowerAll(content.value);
        content := Some(lowered);
      }
      if rtype == "TXT" {
        var items := content.value;
        var buffer := new string[|items|](i requires 0 <= i < |items| => items[i]);
        assert buffer[..] == items;
        QuoteAll(buffer);
        content := Some(buffer[..]);
      }
    }
  }

  /** The update payload: `set(record_content + content)`, and without `exclusive` the
      stored content followed by the new items of that set. */
  method BuildPayload(exclusive: bool, desired: seq<string>, existing: seq<string>, recordContent: seq<string>)
    returns (payload: seq<string>)
    requires forall x :: x in recordContent ==> x in desired
    ensures MergePayload(exclusive, desired, existing, payload)
  {
    assert Distinct(recordContent + desired) == Distinct(desired);
    var merged := SetToSeq(Distinct(recordContent + desired));
    payload := merged;
    if !exclusive {
      RemoveFacts(merged, existing);
      payload := existing + Remove(merged, existing);
      assert payload[|existing|..] == Remove(merged, existing);
    }
  }

  /** The `state == 'present'` branch of `ensure`. */
  method EnsurePresent(p: Params, client: PowerDNSClient, name: string, record: RRSet, content: Option<seq<string>>)
    returns (r: Result<Outcome, Failure>)
    requires p.state == Present && client.readFault.None?
    requires name == RecordName(p.name, p.zone) && record == Found(p, client.rrsets)
    requires content == SanitizedContent(p.rtype, p.content)
    modifies client
    ensures CarriesOut(p, PlanFor(p, old(client.rrsets)), record, client.writeFault,
                       old(client.rrsets), client.rrsets, old(client.log), client.log, r)
  {
    var existing := record.Contents();
    if existing == [] {
      var recordContent := if content.Some? then content.value else [];
      r := ReplaceAndRead(p, client, name, recordContent, Creating);
      return;
    }
    if content.None? {
      return Err(ContentMissing);
    }
    var desired := content.value;
    var pending := CollectPending(p.rtype, desired, existing, record.Ttl() != Some(p.ttl));
    if pending.None? {
      return Err(SerialMissing);
    }
    var recordContent := pending.value;
    if |Distinct(existing)| > |Distinct(desired)| && p.exclusive {
      recordContent := desired;
    }
    if |recordContent| > 0 {
      var payload := BuildPayload(p.exclusive, desired, existing, recordContent);
      r := ReplaceAndRead(p, client, name, payload, Updating);
      return;
    }
    r := Ok(Outcome(false, Some(record)));
  }

  /** The `state == 'absent'` branch of `ensure`. */
  method EnsureAbsent(p: Params, client: PowerDNSClient, name: string, record: RRSet, content: Option<seq<string>>)
    returns (r: Result<Outcome, Failure>)
    requires p.state == Absent && client.readFault.None?
    requires name == RecordName(p.name, p.zone) && record == Found(p, client.rrsets)
    requires content == SanitizedContent(p.rtype, p.content)
    modifies client
    ensures CarriesOut(p, PlanFor(p, old(client.rrsets)), record, client.writeFault,
                       old(client.rrsets), client.rrsets, old(client.log), client.log, r)
  {
    var existing := record.Contents();
    if existing != [] && p.exclusive {
      r := DeleteRecordset(p, client, name);
      return;
    } else if existing != [] {
      if content.None? {
        return Err(ContentMissing);
      }
      var recordContent := Remove(existing, content.value);
      if |recordContent| != |existing| {
        r := ReplaceAndRead(p, client, name, recordContent, Deleting);
        return;
      }
    }
    r := Ok(Outcome(false, Some(record)));
  }

  /** `ensure(module, pdns_client)`: one read, then the decision carried out. */
  method Ensure(p: Params, client: PowerDNSClient) returns (r: Result<Outcome, Failure>)
    modifies client
    ensures client.readFault.Some? ==>
              r == Err(ReadFailed(client.readFault.value)) && client.log == old(client.log) && client.rrsets == old(client.rrsets)
    ensures client.readFault.None? ==>
              CarriesOut(p, PlanFor(p, old(client.rrsets)), Found(p, old(client.rrsets)), client.writeFault,
                         old(client.rrsets), client.rrsets, old(client.log), client.log, r)
    ensures |client.log| <= |old(client.log)| + 1
    ensures p.checkMode ==> client.log == old(client.log) && client.rrsets == old(client.rrsets)
    ensures client.readFault.None? && PlanFor(p, old(client.rrsets)).Ok? && (p.checkMode || client.writeFault.None?) ==>
              r.Ok? && (r.value.changed <==> PlanFor(p, old(client.rrsets)) != Ok(Keep))
  {
    ghost var rrsets0, log0 := client.rrsets, client.log;
    r := Run(p, client);
    if client.readFault.None? {
      CarriesOutFacts(p, PlanFor(p, rrsets0), Found(p, rrsets0), client.writeFault, rrsets0, client.rrsets, log0, client.log, r);
    }
  }

  /** The steps of `ensure`: one read, then the branch for the state. */
  method Run(p: Params, client: PowerDNSClient) returns (r: Result<Outcome, Failure>)
    modifies client
    ensures client.readFault.Some? ==>
              r == Err(ReadFailed(client.readFault.value)) && client.log == old(client.log) && client.rrsets == old(client.rrsets)
    ensures client.readFault.None? ==>
              CarriesOut(p, PlanFor(p, old(client.rrsets)), Found(p, old(client.rrsets)), client.writeFault,
                         old(client.rrsets), client.rrsets, old(client.log), client.log, r)
  {
    var name, zoneName := NormalizeName(p.name, p.zone);
    var read := client.GetRecord(name, p.rtype);
    if read.Err? {
      return Err(ReadFailed(read.error));
    }
    var record := read.value;
    var content := SanitizeContent(p.rtype, p.content);
    if p.state == Present {
      r := EnsurePresent(p, client, name, record, content);
    } else {
      r := EnsureAbsent(p, client, name, record, content);
    }
  }
}
