/** What `ensure` promises, stated over the decision and its effect on the zone. */
module ReconcileProperties {
  import opened Wrappers
  import opened Text
  import opened Content
  import opened Api
  import opened Client
  import opened Reconcile

  // ---------------------------------------------------------------------------
  // Names

  /** The normalised name is canonicalised to exactly one trailing dot. */
  lemma KeyHasOneTrailingDot(p: Params)
    ensures var key := Key(p); EndsWith(key, '.') && !EndsWith(key[..|key| - 1], '.')
  {
  }

  /** Normalising an already normalised name changes nothing. */
  lemma RecordNameIdempotent(name: string, zone: string)
    ensures RecordName(RecordName(name, zone), zone) == RecordName(name, zone)
  {
  }

  /** The zone test is a substring test, not a suffix test: a zone that occurs anywhere
      inside the name keeps it from being appended. */
  lemma ZoneInsideNameIsNotAppended()
    ensures RecordName("mail", "ai") == "mail"
  {
    assert TrimEnd("mail", '.') == "mail";
    assert TrimEnd("ai", '.') == "ai";
    assert "ai" <= "mail"[1..];
  }

  // ---------------------------------------------------------------------------
  // The update loop

  /** The loop raises exactly when `serial` raises on one of the items. */
  lemma {:induction false} PendingFailsIff(rtype: string, content: seq<string>, existing: seq<string>, ttlDiffers: bool)
    ensures Pending(rtype, content, existing, ttlDiffers).None? <==>
            exists i :: 0 <= i < |content| && MatchesExistingContent(rtype, content[i], existing).None?
    decreases |content|
  {
    if content != [] {
      PendingFailsIff(rtype, content[1..], existing, ttlDiffers);
      if Pending(rtype, content[1..], existing, ttlDiffers).None? {
        var i :| 0 <= i < |content[1..]| && MatchesExistingContent(rtype, content[1..][i], existing).None?;
        assert content[i + 1] == content[1..][i];
      }
      if exists i :: 0 <= i < |content| && MatchesExistingContent(rtype, content[i], existing).None? {
        var i :| 0 <= i < |content| && MatchesExistingContent(rtype, content[i], existing).None?;
        if i > 0 {
          assert content[1..][i - 1] == content[i];
        }
      }
    }
  }

  /** The loop collects nothing exactly when every item matches and the ttl is equal
      (or there are no items at all). */
  lemma {:induction false} PendingEmptyIff(rtype: string, content: seq<string>, existing: seq<string>, ttlDiffers: bool)
    requires Pending(rtype, content, existing, ttlDiffers).Some?
    ensures Pending(rtype, content, existing, ttlDiffers).value == [] <==>
            content == [] ||
            (!ttlDiffers && forall i :: 0 <= i < |content| ==> MatchesExistingContent(rtype, content[i], existing) == Some(true))
    decreases |content|
  {
    if content != [] {
      PendingEmptyIff(rtype, content[1..], existing, ttlDiffers);
      assert forall i :: 1 <= i < |content| ==> content[i] == content[1..][i - 1];
    }
  }

  // ---------------------------------------------------------------------------
  // state == present

  /** With nothing stored, present always creates, with the content as given (an empty
      or missing list is not rejected). */
  lemma PresentCreatesWhenNothingStored(exclusive: bool, rtype: string, content: Option<seq<string>>,
                                        storedTtl: Option<int>, ttl: int)
    ensures Decide(Present, exclusive, rtype, content, [], storedTtl, ttl) ==
            Ok(CreateWith(if content.Some? then content.value else []))
  {
  }

  /** With something stored, present leaves it alone exactly when every desired item
      matches, the ttl is equal and the exclusive size test does not fire; an empty
      desired list never writes. Otherwise it rewrites. */
  lemma PresentKeepIff(exclusive: bool, rtype: string, content: seq<string>, existing: seq<string>,
                       storedTtl: Option<int>, ttl: int)
    requires existing != []
    requires rtype == "SOA" ==> forall i :: 0 <= i < |content| ==> |Fields(content[i])| >= 3
    ensures var plan := Decide(Present, exclusive, rtype, Some(content), existing, storedTtl, ttl);
            plan == Ok(Keep) || plan == Ok(Merge)
    ensures Decide(Present, exclusive, rtype, Some(content), existing, storedTtl, ttl) == Ok(Keep) <==>
            content == [] ||
            ((forall i :: 0 <= i < |content| ==> MatchesExistingContent(rtype, content[i], existing) == Some(true)) &&
             storedTtl == Some(ttl) &&
             !(exclusive && |Distinct(existing)| > |Distinct(content)|))
  {
    var ttlDiffers := storedTtl != Some(ttl);
    PendingFailsIff(rtype, content, existing, ttlDiffers);
    PendingEmptyIff(rtype, content, existing, ttlDiffers);
  }

  /** Present with stored content fails when an SOA item has fewer than three fields. */
  lemma PresentRejectsShortSoa(exclusive: bool, content: seq<string>, existing: seq<string>,
                               storedTtl: Option<int>, ttl: int, i: nat)
    requires existing != []
    requires i < |content| && |Fields(content[i])| < 3
    ensures Decide(Present, exclusive, "SOA", Some(content), existing, storedTtl, ttl) == Err(SerialMissing)
  {
    PendingFailsIff("SOA", content, existing, storedTtl != Some(ttl));
  }

  /** A non-exclusive merge keeps every stored entry in place and adds exactly the
      desired items: its items are the union of both. */
  lemma MergeKeepsStored(content: seq<string>, existing: seq<string>, payload: seq<string>)
    requires MergePayload(false, content, existing, payload)
    ensures forall i :: 0 <= i < |existing| ==> payload[i] == existing[i]
    ensures Distinct(payload) == Distinct(existing) + Distinct(content)
  {
    var added := payload[|existing|..];
    assert payload == existing + added;
    forall x | x in Distinct(payload) ensures x in Distinct(existing) + Distinct(content) {
      assert x in existing || x in Distinct(added);
    }
    forall x | x in Distinct(existing) + Distinct(content) ensures x in Distinct(payload) {
      if x !in Distinct(existing) {
        assert x in Distinct(added);
      }
    }
  }

  // ---------------------------------------------------------------------------
  // state == absent

  /** Exclusive absent deletes the whole rrset whenever something is stored. */
  lemma AbsentExclusiveDeletes(rtype: string, content: Option<seq<string>>, existing: seq<string>,
                               storedTtl: Option<int>, ttl: int)
    requires existing != []
    ensures Decide(Absent, true, rtype, content, existing, storedTtl, ttl) == Ok(DeleteAll)
  {
  }

  /** Non-exclusive absent rewrites the stored content without the desired items, in
      their stored order, exactly when one of them is stored; an empty remainder is
      still a REPLACE, never a DELETE. */
  lemma AbsentPrunes(rtype: string, content: seq<string>, existing: seq<string>, storedTtl: Option<int>, ttl: int)
    requires existing != []
    ensures Decide(Absent, false, rtype, Some(content), existing, storedTtl, ttl) ==
            if exists i :: 0 <= i < |existing| && existing[i] in content then Ok(Prune(Remove(existing, content)))
            else Ok(Keep)
    ensures Decide(Absent, false, rtype, Some(content), existing, storedTtl, ttl) != Ok(DeleteAll)
  {
    RemoveFacts(existing, content);
  }

  /** The remainder keeps the stored order: filtering distributes over concatenation. */
  lemma {:induction false} RemoveKeepsOrder(a: seq<string>, b: seq<string>, ys: seq<string>)
    ensures Remove(a + b, ys) == Remove(a, ys) + Remove(b, ys)
    decreases |a|
  {
    if a == [] {
      assert a + b == b;
    } else {
      assert (a + b)[1..] == a[1..] + b;
      RemoveKeepsOrder(a[1..], b, ys);
    }
  }

  /** Nothing stored: absent makes no call. */
  lemma AbsentNothingStored(exclusive: bool, rtype: string, content: Option<seq<string>>, storedTtl: Option<int>, ttl: int)
    ensures Decide(Absent, exclusive, rtype, content, [], storedTtl, ttl) == Ok(Keep)
  {
  }

  // ---------------------------------------------------------------------------
  // Worked cases

  /** For SOA content of four fields: a desired serial of "0" matches a stored entry
      with any serial and the same other fields; a desired non-zero serial that differs
      from the stored one does not match. */
  lemma SoaSerialCases(mname: string, rname: string, stored: string, refresh: string, other: string)
    requires ' ' !in mname && ' ' !in rname && ' ' !in stored && ' ' !in refresh && ' ' !in other
    requires other != "0" && other != stored
    ensures MatchesExistingContent("SOA", mname + " " + rname + " 0 " + refresh,
                                   [mname + " " + rname + " " + stored + " " + refresh]) == Some(true)
    ensures MatchesExistingContent("SOA", mname + " " + rname + " " + other + " " + refresh,
                                   [mname + " " + rname + " " + stored + " " + refresh]) == Some(false)
  {
    var zero := mname + " " + rname + " " + "0" + " " + refresh;
    var current := mname + " " + rname + " " + stored + " " + refresh;
    var changed := mname + " " + rname + " " + other + " " + refresh;
    assert mname + " " + rname + " 0 " + refresh == zero;
    KnownFields([mname, rname, "0", refresh], zero);
    KnownFields([mname, rname, stored, refresh], current);
    KnownFields([mname, rname, other, refresh], changed);
    SerialZeroIsWildcard(zero, [current]);
    assert [current][0] == current;
    assert WithoutSerial(Fields(current)) == WithoutSerial(Fields(zero));
    assert changed != current by {
      assert Fields(changed)[2] != Fields(current)[2];
    }
  }

  /** The fields of a content string written out as four fields joined by spaces. */
  lemma KnownFields(fields: seq<string>, content: string)
    requires |fields| == 4 && (forall i :: 0 <= i < |fields| ==> ' ' !in fields[i])
    requires content == fields[0] + " " + fields[1] + " " + fields[2] + " " + fields[3]
    ensures Fields(content) == fields
  {
    assert fields[1..][1..] == fields[2..] && fields[2..][1..] == fields[3..];
    assert Join(fields[3..], ' ') == fields[3];
    assert Join(fields[2..], ' ') == fields[2] + " " + fields[3];
    assert Join(fields[1..], ' ') == fields[1] + " " + fields[2] + " " + fields[3];
    assert Join(fields, ' ') == content;
    SplitJoin(fields, ' ');
  }

  /** TXT: bare text is quoted once; quoted text is left as it is. */
  lemma TxtQuoteCases()
    ensures Quote("hello") == "\"hello\""
    ensures Quote("\"hello\"") == "\"hello\""
  {
    assert TrimStart("hello", '"') == "hello";
    assert TrimEnd("hello", '"') == "hello";
  }

  /** Exclusive convergence: {a, b} against a stored {a, b, c} rewrites to exactly
      {a, b}; against a stored {a, b} with the same ttl it does nothing. */
  lemma ExclusiveCases(payload: seq<string>)
    requires MergePayload(true, ["a", "b"], ["a", "b", "c"], payload)
    ensures Decide(Present, true, "A", Some(["a", "b"]), ["a", "b", "c"], Some(60), 60) == Ok(Merge)
    ensures Distinct(payload) == {"a", "b"}
    ensures Decide(Present, true, "A", Some(["a", "b"]), ["a", "b"], Some(60), 60) == Ok(Keep)
  {
    assert Distinct(["a", "b", "c"]) == {"a", "b", "c"};
    assert Distinct(["a", "b"]) == {"a", "b"};
    assert |{"a", "b", "c"}| == 3;
    assert |{"a", "b"}| == 2;
    StoredContentMatches("A", "a", ["a", "b", "c"]);
    StoredContentMatches("A", "b", ["a", "b", "c"]);
    PresentKeepIff(true, "A", ["a", "b"], ["a", "b", "c"], Some(60), 60);
    StoredContentMatches("A", "a", ["a", "b"]);
    StoredContentMatches("A", "b", ["a", "b"]);
    PresentKeepIff(true, "A", ["a", "b"], ["a", "b"], Some(60), 60);
  }

  /** Non-exclusive merge: {b} against a stored {a} writes a followed by b. */
  lemma MergeCase(payload: seq<string>)
    requires MergePayload(false, ["b"], ["a"], payload)
    ensures Decide(Present, false, "A", Some(["b"]), ["a"], Some(60), 60) == Ok(Merge)
    ensures payload == ["a", "b"]
  {
    assert MatchesExistingContent("A", "b", ["a"]) == Some(false);
    PresentKeepIff(false, "A", ["b"], ["a"], Some(60), 60);
    var added := payload[1..];
    assert Distinct(["b"]) - Distinct(["a"]) == {"b"};
    OnlyItem(added, "b");
    assert payload == ["a"] + added;
  }

  /** A list without duplicates whose only item is x is [x]. */
  lemma OnlyItem(s: seq<string>, x: string)
    requires NoDuplicates(s) && Distinct(s) == {x}
    ensures s == [x]
  {
    DistinctCount(s);
    assert s[0] in Distinct(s);
  }

  /** A list without duplicates has as many distinct items as entries. */
  lemma {:induction false} DistinctCount(s: seq<string>)
    requires NoDuplicates(s)
    ensures |Distinct(s)| == |s|
    decreases |s|
  {
    if s != [] {
      DistinctCount(s[1..]);
      assert Distinct(s) == {s[0]} + Distinct(s[1..]);
      assert s[0] !in Distinct(s[1..]);
    }
  }

  /** Non-exclusive removal: a from a stored {a, b} leaves b; removing both sends an
      empty REPLACE. */
  lemma PruneCases()
    ensures Decide(Absent, false, "A", Some(["a"]), ["a", "b"], Some(60), 60) == Ok(Prune(["b"]))
    ensures Decide(Absent, false, "A", Some(["a", "b"]), ["a", "b"], Some(60), 60) == Ok(Prune([]))
  {
    assert Remove(["b"], ["a"]) == ["b"];
    assert Remove(["a", "b"], ["a"]) == ["b"];
    assert Remove(["b"], ["a", "b"]) == [];
    assert Remove(["a", "b"], ["a", "b"]) == [];
  }

  // ---------------------------------------------------------------------------
  // Idempotence

  /** The content a carried-out plan leaves stored under the key. */
  ghost predicate Leaves(plan: Plan, exclusive: bool, content: seq<string>, existing: seq<string>, after: seq<string>)
  {
    match plan
    case Keep => after == existing
    case CreateWith(c) => after == c
    case Merge => MergePayload(exclusive, content, existing, after)
    case Prune(remainder) => after == remainder
    case DeleteAll => after == []
  }

  /** After a write, deciding again on what was written leaves it alone. */
  lemma DecideIdempotent(state: State, exclusive: bool, rtype: string, content: Option<seq<string>>,
                         existing: seq<string>, storedTtl: Option<int>, ttl: int, plan: Plan, after: seq<string>)
    requires Decide(state, exclusive, rtype, content, existing, storedTtl, ttl) == Ok(plan) && plan != Keep
    requires state == Present ==> content.Some? && content.value != []
    requires state == Present && rtype == "SOA" && content.Some? ==> forall i :: 0 <= i < |content.value| ==> |Fields(content.value[i])| >= 3
    requires Leaves(plan, exclusive, if content.Some? then content.value else [], existing, after)
    ensures Decide(state, exclusive, rtype, content, after, if after == [] then None else Some(ttl), ttl) == Ok(Keep)
  {
    if state == Present {
      var c := content.value;
      assert after != [] by {
        if plan.Merge? && exclusive {
          assert c[0] in Distinct(after);
        } else if plan.Merge? {
          assert existing != [];
        }
      }
      forall i | 0 <= i < |c| ensures MatchesExistingContent(rtype, c[i], after) == Some(true) {
        if plan.Merge? && !exclusive {
          MergeKeepsStored(c, existing, after);
        }
        assert c[i] in Distinct(after);
        StoredContentMatches(rtype, c[i], after);
      }
      PresentKeepIff(exclusive, rtype, c, after, Some(ttl), ttl);
    } else if plan.Prune? && after != [] {
      RemoveFacts(existing, content.value);
      RemoveFacts(after, content.value);
      assert forall i :: 0 <= i < |after| ==> after[i] in after;
    }
  }

  /** After a successful real run, deciding again against the zone it left gives Keep
      (present needs a non-empty content list, and present SOA content its three fields). */
  lemma RunLeavesNothingToDo(p: Params, rrsets0: seq<RRSet>, rrsets1: seq<RRSet>, log0: seq<PatchData>,
                             log1: seq<PatchData>, r: Result<Outcome, Failure>)
    requires !p.checkMode
    requires p.state == Present ==> p.content.Some? && p.content.value != []
    requires p.state == Present && p.rtype == "SOA" && p.content.Some? ==> forall i :: 0 <= i < |p.content.value| ==> |Fields(p.content.value[i])| >= 3
    requires CarriesOut(p, PlanFor(p, rrsets0), Found(p, rrsets0), None, rrsets0, rrsets1, log0, log1, r)
    requires r.Ok?
    ensures PlanFor(p, rrsets1) == Ok(Keep)
  {
    var plan := PlanFor(p, rrsets0);
    var content := SanitizedContent(p.rtype, p.content);
    var record := Found(p, rrsets0);
    if plan.Ok? && plan.value != Keep {
      var after: seq<string>;
      match plan.value {
        case CreateWith(c) =>
          after := c;
          StoredUnderKey(p, rrsets0, c);
        case Merge =>
          var payload :| && MergePayload(p.exclusive, content.value, record.Contents(), payload)
                         && Replaces(p, payload, Updating, None, rrsets0, rrsets1, log0, log1, r);
          after := payload;
          StoredUnderKey(p, rrsets0, payload);
        case Prune(remainder) =>
          after := remainder;
          StoredUnderKey(p, rrsets0, remainder);
        case DeleteAll =>
          after := [];
          SelectAfterDelete(rrsets0, Key(p), p.rtype);
      }
      DecideIdempotent(p.state, p.exclusive, p.rtype, content, record.Contents(), record.Ttl(), p.ttl,
                       plan.value, after);
    }
  }

  /** Invoking `ensure` twice with the same parameters: when the first run succeeds,
      the second sends nothing and reports no change. */
  method EnsureTwice(p: Params, client: PowerDNSClient) returns (first: Result<Outcome, Failure>, second: Result<Outcome, Failure>)
    requires !p.checkMode
    requires p.state == Present ==> p.content.Some? && p.content.value != []
    requires p.state == Present && p.rtype == "SOA" && p.content.Some? ==> forall i :: 0 <= i < |p.content.value| ==> |Fields(p.content.value[i])| >= 3
    modifies client
    ensures first.Ok? ==> second.Ok? && !second.value.changed
    ensures first.Ok? ==> |client.log| <= |old(client.log)| + 1
  {
    ghost var rrsets0, log0 := client.rrsets, client.log;
    first := Ensure(p, client);
    ghost var rrsets1, log1 := client.rrsets, client.log;
    second := Ensure(p, client);
    if first.Ok? && client.writeFault.None? {
      RunLeavesNothingToDo(p, rrsets0, rrsets1, log0, log1, first);
    }
  }

  /** What is read back under the key after writing `content` there. */
  lemma StoredUnderKey(p: Params, rrsets: seq<RRSet>, content: seq<string>)
    ensures var written := Replaced(rrsets, Key(p), p.rtype, StoredRecords(content, p.disabled), p.ttl);
            var found := Found(p, written);
            found.Contents() == content && found.Ttl() == (if content == [] then None else Some(p.ttl))
  {
    SelectAfterReplace(rrsets, Key(p), p.rtype, StoredRecords(content, p.disabled), p.ttl);
    if content != [] {
      ContentsOfStored(Key(p), p.rtype, content, p.disabled, p.ttl);
    }
  }
}
