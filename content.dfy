/** Content comparison and sanitising: the SOA serial helpers, the "already present"
    test, and the per-type rewriting of user-supplied content (powerdns_record.py). */
module Content {
  import opened Wrappers
  import opened Text

  /** The space-separated fields of an SOA content string (`content.split(' ')`). */
  function Fields(content: string): seq<string>
  {
    Split(content, ' ')
  }

  /** The fields with the third one (the serial) left out: `parts[:2] + parts[3:]`. */
  function WithoutSerial(fields: seq<string>): (r: seq<string>)
    ensures |fields| >= 3 ==> |r| == |fields| - 1 && r == fields[..2] + fields[3..]
    ensures |fields| < 3 ==> r == fields
  {
    SliceTo(fields, 2) + SliceFrom(fields, 3)
  }

  /** `serial(content)`: the third field; None stands for the IndexError raised when
      the content has fewer than three fields. A serial never holds a space. */
  function Serial(content: string): (r: Option<string>)
    ensures r.Some? <==> |Fields(content)| >= 3
    ensures r.Some? ==> ' ' !in r.value
  {
    var parts := Fields(content);
    if |parts| >= 3 then Some(parts[2]) else None
  }

  /** `ignore_serial(content)`: the content re-joined without its serial field. Its
      fields are the fields of the content without the serial; content with fewer than
      three fields loses nothing. */
  function IgnoreSerial(content: string): (r: string)
    ensures Fields(r) == WithoutSerial(Fields(content))
  {
    var parts := Fields(content);
    var kept := WithoutSerial(parts);
    if |parts| >= 3 then
      assert forall i :: 0 <= i < |kept| ==> kept[i] in parts;
      SplitJoin(kept, ' ');
      Join(kept, ' ')
    else
      JoinSplit(content, ' ');
      Join(kept, ' ')
  }

  /** Content with fewer than three fields comes back from ignore_serial unchanged. */
  lemma IgnoreSerialShort(content: string)
    requires |Fields(content)| < 3
    ensures IgnoreSerial(content) == content
  {
    JoinSplit(content, ' ');
  }

  /** Removing the serial loses nothing else: putting the serial back in third
      position rebuilds the original content. */
  lemma ReinsertSerial(content: string)
    requires Serial(content).Some?
    ensures var rest := Fields(IgnoreSerial(content));
            |rest| >= 2 && Join(rest[..2] + [Serial(content).value] + rest[2..], ' ') == content
  {
    var parts := Fields(content);
    var rest := Fields(IgnoreSerial(content));
    assert rest[..2] + [parts[2]] + rest[2..] == parts;
    JoinSplit(content, ' ');
  }

  /** Two contents have the same ignore_serial exactly when their fields agree
      once the serial is dropped. */
  lemma IgnoreSerialEqual(a: string, b: string)
    ensures IgnoreSerial(a) == IgnoreSerial(b) <==> WithoutSerial(Fields(a)) == WithoutSerial(Fields(b))
  {
    var fa, fb := Fields(IgnoreSerial(a)), Fields(IgnoreSerial(b));
    if fa == fb {
      JoinSplit(IgnoreSerial(a), ' ');
      JoinSplit(IgnoreSerial(b), ' ');
    }
  }

  /** `matches_existing_content(rtype, content, existing_content)`: None stands for
      the IndexError of `serial` on SOA content with fewer than three fields. */
  function MatchesExistingContent(rtype: string, content: string, existing: seq<string>): (r: Option<bool>)
    ensures r.None? <==> rtype == "SOA" && |Fields(content)| < 3
    ensures r.Some? && !(rtype == "SOA" && Serial(content) == Some("0")) ==> (r.value <==> content in existing)
  {
    if rtype == "SOA" && Serial(content).None? then None
    else if rtype == "SOA" && Serial(content) == Some("0") then
      Some(IgnoreSerial(content) in seq(|existing|, i requires 0 <= i < |existing| => IgnoreSerial(existing[i])))
    else Some(content in existing)
  }

  /** With a desired SOA serial of "0" the comparison ignores serials: the content
      matches iff some stored entry has the same fields apart from the serial. */
  lemma SerialZeroIsWildcard(content: string, existing: seq<string>)
    requires Serial(content) == Some("0")
    ensures MatchesExistingContent("SOA", content, existing) == Some(true) <==>
            exists i :: 0 <= i < |existing| && WithoutSerial(Fields(existing[i])) == WithoutSerial(Fields(content))
  {
    var stripped := seq(|existing|, i requires 0 <= i < |existing| => IgnoreSerial(existing[i]));
    forall i | 0 <= i < |existing|
      ensures stripped[i] == IgnoreSerial(content) <==> WithoutSerial(Fields(existing[i])) == WithoutSerial(Fields(content))
    {
      IgnoreSerialEqual(existing[i], content);
    }
  }

  /** Content that is stored verbatim always matches, whatever the type and serial. */
  lemma StoredContentMatches(rtype: string, content: string, existing: seq<string>)
    requires content in existing
    requires rtype == "SOA" ==> |Fields(content)| >= 3
    ensures MatchesExistingContent(rtype, content, existing) == Some(true)
  {
    if rtype == "SOA" && Serial(content) == Some("0") {
      var i :| 0 <= i < |existing| && existing[i] == content;
      var stripped := seq(|existing|, i requires 0 <= i < |existing| => IgnoreSerial(existing[i]));
      assert stripped[i] == IgnoreSerial(content);
    }
  }

  /** The TXT test of the source: the item starts and ends with a double quote. */
  predicate IsQuoted(item: string)
  {
    StartsWith(item, '"') && EndsWith(item, '"')
  }

  /** The TXT rewrite: an item that is not quoted at both ends loses any quotes at its
      ends and is wrapped in exactly one pair; a quoted item is left alone. */
  function Quote(item: string): (r: string)
    ensures IsQuoted(r)
    ensures IsQuoted(item) ==> r == item
    ensures !IsQuoted(item) ==> |r| >= 2 && r[1..|r| - 1] == Strip(item, '"')
    ensures !IsQuoted(item) ==> |r| == 2 || (r[1] != '"' && r[|r| - 2] != '"')
  {
    if IsQuoted(item) then item else "\"" + Strip(item, '"') + "\""
  }

  /** Sanitising `content`: AAAA items are lower-cased, TXT items quoted, others kept. */
  function Sanitize(rtype: string, content: seq<string>): (r: seq<string>)
    ensures |r| == |content|
    ensures rtype == "AAAA" ==> forall i :: 0 <= i < |r| ==> forall k :: 0 <= k < |r[i]| ==> !('A' <= r[i][k] <= 'Z')
    ensures rtype == "AAAA" ==> forall i :: 0 <= i < |r| ==> r[i] == Lower(content[i])
    ensures rtype == "TXT" ==> forall i :: 0 <= i < |r| ==> IsQuoted(r[i]) && (IsQuoted(content[i]) ==> r[i] == content[i])
    ensures rtype == "TXT" ==> forall i :: 0 <= i < |r| ==> r[i] == Quote(content[i])
    ensures rtype != "AAAA" && rtype != "TXT" ==> r == content
  {
    if rtype == "AAAA" then seq(|content|, i requires 0 <= i < |content| => Lower(content[i]))
    else if rtype == "TXT" then seq(|content|, i requires 0 <= i < |content| => Quote(content[i]))
    else content
  }

  /** Sanitising is idempotent: sanitised content is left as it is. */
  lemma SanitizeIdempotent(rtype: string, content: seq<string>)
    ensures Sanitize(rtype, Sanitize(rtype, content)) == Sanitize(rtype, content)
  {
    var once := Sanitize(rtype, content);
    if rtype == "AAAA" {
      forall i | 0 <= i < |content| ensures Sanitize(rtype, once)[i] == once[i] {
        LowerIdempotent(content[i]);
      }
    }
  }

  /** The AAAA loop: builds a new list of the lower-cased items. */
  method LowerAll(content: seq<string>) returns (sanitized: seq<string>)
    ensures sanitized == Sanitize("AAAA", content)
  {
    sanitized := [];
    for i := 0 to |content|
      invariant sanitized == Sanitize("AAAA", content[..i])
    {
      sanitized := sanitized + [Lower(content[i])];
    }
    assert content[..|content|] == content;
  }

  /** The TXT loop: rewrites, in place, every item that is not quoted at both ends. */
  method QuoteAll(content: array<string>)
    modifies content
    ensures content[..] == Sanitize("TXT", old(content[..]))
  {
    for i := 0 to content.Length
      invariant forall k :: 0 <= k < i ==> content[k] == Quote(old(content[k]))
      invariant forall k :: i <= k < content.Length ==> content[k] == old(content[k])
    {
      if !(StartsWith(content[i], '"') && EndsWith(content[i], '"')) {
        content[i] := "\"" + Strip(content[i], '"') + "\"";
      }
    }
  }
}
