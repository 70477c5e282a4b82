/** PowerDNSClient with its transport abstracted away: the zone's rrsets as the server
    holds them, the PATCH bodies sent so far, and the error (if any) the server answers
    reads and writes with (powerdns_record.py, lines 132-245). */
module Client {
  import opened Wrappers
  import opened Api

  /** The records a REPLACE of `content` leaves on the server. */
  function StoredRecords(content: seq<string>, disabled: bool): (r: seq<Record>)
    ensures |r| == |content|
    ensures forall i :: 0 <= i < |r| ==> r[i] == Record(content[i], disabled)
  {
    seq(|content|, i requires 0 <= i < |content| => Record(content[i], disabled))
  }

  /** Writing `content` and reading it back gives `content`. */
  lemma ContentsOfStored(name: string, rtype: string, content: seq<string>, disabled: bool, ttl: int)
    ensures RRSet(name, rtype, StoredRecords(content, disabled), ttl).Contents() == content
  {
  }

  /** The zone after a DELETE of (name, rtype): every other rrset, in order. */
  function Without(rrsets: seq<RRSet>, name: string, rtype: string): (r: seq<RRSet>)
    ensures forall x :: x in r <==> x in rrsets && !IsFor(x, name, rtype)
    decreases |rrsets|
  {
    if rrsets == [] then []
    else (if IsFor(rrsets[0], name, rtype) then [] else [rrsets[0]]) + Without(rrsets[1..], name, rtype)
  }

  /** The zone after a REPLACE of (name, rtype): the old rrset goes, and the new one
      is added unless it has no records. */
  function Replaced(rrsets: seq<RRSet>, name: string, rtype: string, records: seq<Record>, ttl: int): (r: seq<RRSet>)
    ensures forall x :: x in rrsets && !IsFor(x, name, rtype) ==> x in r
    ensures forall x :: x in r && IsFor(x, name, rtype) ==> x == RRSet(name, rtype, records, ttl)
    ensures records != [] <==> RRSet(name, rtype, records, ttl) in r
    ensures forall x :: x in r ==> (x in rrsets && !IsFor(x, name, rtype)) || x == RRSet(name, rtype, records, ttl)
  {
    Without(rrsets, name, rtype) + (if records == [] then [] else [RRSet(name, rtype, records, ttl)])
  }

  /** After a DELETE nothing is found under the deleted key. */
  lemma SelectAfterDelete(rrsets: seq<RRSet>, name: string, rtype: string)
    ensures SelectRRSet(Without(rrsets, name, rtype), name, rtype) == NoRRSet
  {
  }

  /** The search of a concatenation looks in the second part only when the first
      part has nothing under the key. */
  lemma {:induction false} SelectAppend(a: seq<RRSet>, b: seq<RRSet>, name: string, rtype: string)
    ensures SelectRRSet(a + b, name, rtype) ==
            if SelectRRSet(a, name, rtype).NoRRSet? then SelectRRSet(b, name, rtype) else SelectRRSet(a, name, rtype)
    decreases |a|
  {
    if a == [] {
      assert a + b == b;
    } else {
      SelectAppend(a[1..], b, name, rtype);
      assert (a + b)[1..] == a[1..] + b;
    }
  }

  /** After a REPLACE exactly the written rrset is found under its key. */
  lemma SelectAfterReplace(rrsets: seq<RRSet>, name: string, rtype: string, records: seq<Record>, ttl: int)
    ensures SelectRRSet(Replaced(rrsets, name, rtype, records, ttl), name, rtype) ==
            if records == [] then NoRRSet else RRSet(name, rtype, records, ttl)
  {
    var rest := Without(rrsets, name, rtype);
    var added := if records == [] then [] else [RRSet(name, rtype, records, ttl)];
    SelectAfterDelete(rrsets, name, rtype);
    SelectAppend(rest, added, name, rtype);
    if records != [] {
      assert IsFor(added[0], name, rtype);
    }
  }

  /** Removing one key leaves what is found under every other key as it was. */
  lemma {:induction false} SelectOtherAfterDelete(rrsets: seq<RRSet>, name: string, rtype: string, name': string, rtype': string)
    requires name' != name || rtype' != rtype
    ensures SelectRRSet(Without(rrsets, name, rtype), name', rtype') == SelectRRSet(rrsets, name', rtype')
    decreases |rrsets|
  {
    if rrsets != [] {
      SelectOtherAfterDelete(rrsets[1..], name, rtype, name', rtype');
      var rest := Without(rrsets[1..], name, rtype);
      if !IsFor(rrsets[0], name, rtype) {
        assert Without(rrsets, name, rtype) == [rrsets[0]] + rest;
        assert ([rrsets[0]] + rest)[1..] == rest;
      } else {
        assert Without(rrsets, name, rtype) == rest;
      }
    }
  }

  /** A REPLACE of one key leaves what is found under every other key as it was. */
  lemma SelectOtherAfterReplace(rrsets: seq<RRSet>, name: string, rtype: string, records: seq<Record>, ttl: int,
                                name': string, rtype': string)
    requires name' != name || rtype' != rtype
    ensures SelectRRSet(Replaced(rrsets, name, rtype, records, ttl), name', rtype') == SelectRRSet(rrsets, name', rtype')
  {
    SelectOtherAfterDelete(rrsets, name, rtype, name', rtype');
    var rest := Without(rrsets, name, rtype);
    var added := if records == [] then [] else [RRSet(name, rtype, records, ttl)];
    SelectAppend(rest, added, name', rtype');
    assert SelectRRSet(added, name', rtype').NoRRSet?;
  }

  class PowerDNSClient {
    /** The rrsets of the zone, as the server stores them. */
    var rrsets: seq<RRSet>
    /** Every PATCH body sent, oldest first. */
    var log: seq<PatchData>
    /** The error the server answers GET requests with, if any. */
    const readFault: Option<PowerDNSError>
    /** The error the server answers PATCH requests with, if any. */
    const writeFault: Option<PowerDNSError>

    constructor (rrsets: seq<RRSet>, readFault: Option<PowerDNSError>, writeFault: Option<PowerDNSError>)
      ensures this.rrsets == rrsets && log == []
      ensures this.readFault == readFault && this.writeFault == writeFault
    {
      this.rrsets := rrsets;
      this.log := [];
      this.readFault := readFault;
      this.writeFault := writeFault;
    }

    /** `get_record`: the first rrset of the zone stored under the canonical name and
        the type, or the empty placeholder; a failing GET raises. */
    method GetRecord(name: string, rtype: string) returns (r: Result<RRSet, PowerDNSError>)
      ensures readFault.Some? ==> r == Err(readFault.value)
      ensures readFault.None? ==> r.Ok? && (r.value.RRSet? ==> r.value in rrsets && IsFor(r.value, MakeCanonical(name), rtype))
      ensures readFault.None? ==> r == Ok(SelectRRSet(rrsets, MakeCanonical(name), rtype))
    {
      if readFault.Some? {
        return Err(readFault.value);
      }
      var canonicalName := MakeCanonical(name);
      r := Ok(SelectRRSet(rrsets, canonicalName, rtype));
    }

    /** `create_record`: sends one REPLACE for the canonical name; unless the server
        rejects it, the rrset then holds exactly `content` with this ttl. */
    method CreateRecord(name: string, rtype: string, content: seq<string>, disabled: bool, ttl: int, setPtr: bool)
      returns (r: Result<(), PowerDNSError>)
      modifies this
      ensures log == old(log) + [RequestData(Replace, MakeCanonical(name), rtype, setPtr, content, Some(disabled), Some(ttl))]
      ensures r == if writeFault.Some? then Err(writeFault.value) else Ok(())
      ensures rrsets == if writeFault.Some? then old(rrsets)
                        else Replaced(old(rrsets), MakeCanonical(name), rtype, StoredRecords(content, disabled), ttl)
    {
      var canonicalName := MakeCanonical(name);
      var data := GetRequestData(Replace, canonicalName, rtype, setPtr, content, Some(disabled), Some(ttl));
      log := log + [data];
      if writeFault.Some? {
        return Err(writeFault.value);
      }
      rrsets := Replaced(rrsets, canonicalName, rtype, StoredRecords(content, disabled), ttl);
      r := Ok(());
    }

    /** `delete_record`: sends one DELETE for the canonical name; unless the server
        rejects it, no rrset of that name and type is left. */
    method DeleteRecord(name: string, rtype: string) returns (r: Result<(), PowerDNSError>)
      modifies this
      ensures log == old(log) + [RequestData(Delete, MakeCanonical(name), rtype, false, [], None, None)]
      ensures r == if writeFault.Some? then Err(writeFault.value) else Ok(())
      ensures rrsets == if writeFault.Some? then old(rrsets) else Without(old(rrsets), MakeCanonical(name), rtype)
    {
      var canonicalName := MakeCanonical(name);
      var data := GetRequestData(Delete, canonicalName, rtype, false, [], None, None);
      log := log + [data];
      if writeFault.Some? {
        return Err(writeFault.value);
      }
      rrsets := Without(rrsets, canonicalName, rtype);
      r := Ok(());
    }
  }
}
