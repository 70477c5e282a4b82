/** The pure parts of PowerDNSClient: name canonicalisation, response classification,
    rrset selection and the PATCH payload (powerdns_record.py, lines 125-245). */
module Api {
  import opened Wrappers
  import opened Text

  /** `_make_canonical(name)`: the fully-qualified form, with one trailing dot added
      when the name has none. */
  function MakeCanonical(name: string): (r: string)
    ensures EndsWith(r, '.')
    ensures EndsWith(name, '.') ==> r == name
    ensures !EndsWith(name, '.') ==> r == name + "."
  {
    if EndsWith(name, '.') then name else name + "."
  }

  /** Canonicalising a canonical name changes nothing. */
  lemma MakeCanonicalIdempotent(name: string)
    ensures MakeCanonical(MakeCanonical(name)) == MakeCanonical(name)
  {
  }

  // ---------------------------------------------------------------------------
  // Responses and errors

  /** What the code reads from an HTTP response: the status, the raw body text, and
      the body decoded as a JSON object (None when `.json()` raises). */
  datatype Response = Response(status: int, text: string, json: Option<map<string, string>>)

  /** PowerDNSError; its message is None when the body is a JSON object with none of
      the recognised keys (Python's None). */
  datatype PowerDNSError = PowerDNSError(status: int, message: Option<string>)

  /** `_get_request_error_message`: the first of `error`, `errors`, `msg` present in the
      JSON body, None if the body has none of them, the raw text if it is not JSON. */
  function GetRequestErrorMessage(resp: Response): (r: Option<string>)
    ensures resp.json.None? ==> r == Some(resp.text)
    ensures resp.json.Some? && "error" in resp.json.value ==> r == Some(resp.json.value["error"])
    ensures resp.json.Some? && "error" !in resp.json.value && "errors" in resp.json.value ==> r == Some(resp.json.value["errors"])
    ensures resp.json.Some? && "error" !in resp.json.value && "errors" !in resp.json.value && "msg" in resp.json.value ==>
              r == Some(resp.json.value["msg"])
    ensures r.None? <==> resp.json.Some? && "error" !in resp.json.value && "errors" !in resp.json.value && "msg" !in resp.json.value
  {
    match resp.json
    case None => Some(resp.text)
    case Some(body) =>
      if "error" in body then Some(body["error"])
      else if "errors" in body then Some(body["errors"])
      else if "msg" in body then Some(body["msg"])
      else None
  }

  /** `_handle_request`: 200, 201 and 204 succeed with the decoded body (empty when
      the body is empty or not JSON); every other status raises PowerDNSError with
      the same status, 404 always with "Not found". */
  function HandleRequest(resp: Response): (r: Result<map<string, string>, PowerDNSError>)
    ensures r.Ok? <==> resp.status in {200, 201, 204}
    ensures r.Ok? && resp.text != "" && resp.json.Some? ==> r.value == resp.json.value
    ensures r.Ok? && (resp.text == "" || resp.json.None?) ==> r.value == map[]
    ensures r.Err? ==> r.error.status == resp.status
    ensures resp.status == 404 ==> r == Err(PowerDNSError(404, Some("Not found")))
    ensures r.Err? && resp.status != 404 ==> r.error.message == GetRequestErrorMessage(resp)
  {
    if resp.status in {200, 201, 204} then
      if resp.text != "" && resp.json.Some? then Ok(resp.json.value) else Ok(map[])
    else if resp.status == 404 then
      Err(PowerDNSError(404, Some("Not found")))
    else
      Err(PowerDNSError(resp.status, GetRequestErrorMessage(resp)))
  }

  // ---------------------------------------------------------------------------
  // Stored records

  /** One record of an rrset as the API returns it. */
  datatype Record = Record(content: string, disabled: bool)

  /** An rrset of the zone, or the placeholder `dict(records=[], comments=[])` that
      get_record returns when nothing matches (it has no name, type or ttl). */
  datatype RRSet =
    | RRSet(name: string, rtype: string, records: seq<Record>, ttl: int)
    | NoRRSet
  {
    /** `[c.get('content') for c in record["records"]]`. */
    function Contents(): (r: seq<string>)
      ensures NoRRSet? ==> r == []
      ensures RRSet? ==> |r| == |records| && forall i :: 0 <= i < |r| ==> r[i] == records[i].content
    {
      if NoRRSet? then [] else seq(|records|, i requires 0 <= i < |records| => records[i].content)
    }

    /** `record.get('ttl', None)`: None exactly for the placeholder. */
    function Ttl(): (r: Option<int>)
      ensures r.None? <==> NoRRSet?
      ensures RRSet? ==> r.value == ttl
    {
      if NoRRSet? then None else Some(ttl)
    }
  }

  predicate IsFor(r: RRSet, name: string, rtype: string)
  {
    r.RRSet? && r.name == name && r.rtype == rtype
  }

  /** The selection in `get_record`: the first rrset with this name and type, or the
      empty placeholder when there is none. */
  function SelectRRSet(rrsets: seq<RRSet>, name: string, rtype: string): (r: RRSet)
    ensures r.NoRRSet? <==> forall i :: 0 <= i < |rrsets| ==> !IsFor(rrsets[i], name, rtype)
    ensures r.RRSet? ==> exists i :: 0 <= i < |rrsets| && rrsets[i] == r && IsFor(r, name, rtype) &&
                                     forall j :: 0 <= j < i ==> !IsFor(rrsets[j], name, rtype)
    decreases |rrsets|
  {
    if rrsets == [] then NoRRSet
    else if IsFor(rrsets[0], name, rtype) then rrsets[0]
    else
      var r := SelectRRSet(rrsets[1..], name, rtype);
      assert forall i :: 1 <= i < |rrsets| ==> rrsets[i] == rrsets[1..][i - 1];
      r
  }

  // ---------------------------------------------------------------------------
  // The PATCH payload

  datatype ChangeType = Replace | Delete

  /** One entry of `records`: `set-ptr` is sent (as True) only when setPtr holds. */
  datatype Entry = Entry(content: string, disabled: Option<bool>, setPtr: bool)

  datatype RRSetChange = RRSetChange(name: string, rtype: string, changetype: ChangeType,
                                     records: seq<Entry>, ttl: Option<int>)

  /** The JSON body `dict(rrsets=[...])` of a zone PATCH. */
  datatype PatchData = PatchData(rrsets: seq<RRSetChange>)

  /** Whether the entries carry `set-ptr`: only for A and AAAA records. */
  function PtrFlag(rtype: string, setPtr: bool): bool
  {
    (rtype == "A" || rtype == "AAAA") && setPtr
  }

  /** The payload `_get_request_data` builds; a missing `content` is the empty list. */
  function RequestData(changetype: ChangeType, name: string, rtype: string, setPtr: bool,
                       content: seq<string>, disabled: Option<bool>, ttl: Option<int>): (data: PatchData)
    ensures |data.rrsets| == 1
    ensures var change := data.rrsets[0];
            change.name == name && change.rtype == rtype && change.changetype == changetype && change.ttl == ttl
    ensures var recs := data.rrsets[0].records;
            |recs| == |content| &&
            forall i :: 0 <= i < |recs| ==>
              && recs[i].content == content[i]
              && recs[i].disabled == disabled
              && (recs[i].setPtr <==> (rtype == "A" || rtype == "AAAA") && setPtr)
  {
    var entries := seq(|content|, i requires 0 <= i < |content| => Entry(content[i], disabled, PtrFlag(rtype, setPtr)));
    var data := PatchData([RRSetChange(name, rtype, changetype, entries, ttl)]);
    assert data.rrsets[0].records == entries;
    assert forall i :: 0 <= i < |entries| ==> entries[i] == Entry(content[i], disabled, PtrFlag(rtype, setPtr));
    data
  }

  /** `_get_request_data`: a single rrset change with one entry per content item, in
      order, each with the given `disabled` flag, flagged `set-ptr` only for A/AAAA. */
  method GetRequestData(changetype: ChangeType, name: string, rtype: string, setPtr: bool,
                        content: seq<string>, disabled: Option<bool>, ttl: Option<int>)
    returns (data: PatchData)
    ensures data == RequestData(changetype, name, rtype, setPtr, content, disabled, ttl)
  {
    var recordContent: seq<Entry> := [];
    for i := 0 to |content|
      invariant |recordContent| == i
      invariant forall k :: 0 <= k < i ==> recordContent[k] == Entry(content[k], disabled, PtrFlag(rtype, setPtr))
    {
      var entry := Entry(content[i], disabled, false);
      if (rtype == "A" || rtype == "AAAA") && setPtr {
        entry := entry.(setPtr := true);
      }
      recordContent := recordContent + [entry];
    }
    data := PatchData([RRSetChange(name, rtype, changetype, recordContent, ttl)]);
    assert recordContent == RequestData(changetype, name, rtype, setPtr, content, disabled, ttl).rrsets[0].records;
  }
}
