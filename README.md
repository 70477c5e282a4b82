# PowerDNS record reconciliation, modelled in Dafny

This project models the core of the Ansible module `powerdns_record.py`.
The module makes one rrset of a PowerDNS zone match what the caller asks for.
An rrset is the set of records with a given name and type.
The module does this in one invocation of `ensure`:

1. It normalises the record name against the zone.
2. It reads the rrset through the PowerDNS HTTP API.
3. It sanitises the desired content: AAAA items are lower-cased and TXT items are double-quoted.
4. It decides, from `state` (present/absent) and `exclusive`, whether anything must change.
5. If so, it sends at most one zone PATCH: a REPLACE, after which it re-reads the rrset (in check mode too, where nothing was sent), or a DELETE, after which it returns no record.

In check mode it reports the same `changed` flag without sending the PATCH.

Layout:

- `wrappers.dfy`: `Option` and `Result`.
- `text.dfy`: the Python string operations the module uses, on `seq<char>`: `split(' ')`, `join`, clamped slices, `rstrip`, `strip`, ASCII `lower` and `in`.
- `content.dfy`: `serial`, `ignore_serial`, `matches_existing_content`, and the AAAA and TXT sanitising loops.
- `api.dfy`: the client's pure parts:
  - `_make_canonical`;
  - `_handle_request` and `_get_request_error_message`;
  - the rrset selection of `get_record`;
  - the `_get_request_data` loop.
- `client.dfy`: `PowerDNSClient` as a class. Its state is the zone's rrsets, a log of the PATCH bodies it has sent, and the error (if any) the server answers reads and writes with.
- `reconcile.dfy`: `ensure`. It has a specification function, `Decide`, that gives the plan. The imperative method `Ensure` over the client is proved to carry that plan out (`CarriesOut`).
- `reconcile_props.dfy`:
  - the decision table;
  - the merge and prune payloads;
  - idempotence of a second run;
  - worked cases.

Python exceptions are modelled as error values:

- The `IndexError` of `serial` on SOA content with fewer than three fields becomes `SerialMissing`.
- The `TypeError` of iterating a missing `content` list becomes `ContentMissing`.
- A `PowerDNSError` raised by the first read (not caught in `ensure`) becomes `ReadFailed`.
- A `PowerDNSError` raised by a write or its re-read (caught, then `fail_json`) becomes `WriteFailed(attempt, error)`.

`set(...)` has no fixed iteration order. The method that turns a set into a list (`SetToSeq`) picks an arbitrary order. The update payload is therefore specified by its set of items, by its having no duplicates, and, for the non-exclusive case, by the stored content being an ordered prefix.

The code does the following, which a reader might not expect:

- An empty desired `content` with `state=present` is not rejected. With nothing stored, it is sent as a REPLACE with no records. With something stored, it changes nothing.
- With `state=absent` and `exclusive=false`, a remainder that is empty is sent as a REPLACE with an empty list. The DELETE written after that REPLACE (lines 384-391) can never run, because the REPLACE branch always returns or fails first.
- The zone test is `zone_name not in name`. That is a substring test, not a suffix test, although the `name` option is described as having the zone added at the end to form an FQDN (line 28): name `mail` in zone `ai` stays `mail` (`ZoneInsideNameIsNotAppended`).
- With `exclusive`, a stored superset is detected by set size together with the per-item mismatch test, not by set equality.

## Model

| member | source | states |
|---|---|---|
| Text.Split | powerdns_record.py:250 | `split(' ')`: always at least one field, and no field holds the separator |
| Text.JoinSplit | powerdns_record.py:256-257 | joining the fields of a split gives back the original string |
| Text.SplitWithoutSeparator | powerdns_record.py:256 | a string without the separator splits into itself alone |
| Text.SplitAtSeparator | powerdns_record.py:256 | splitting at the first separator gives the first field followed by the split of the rest |
| Text.SplitJoin | powerdns_record.py:256-257 | splitting a join of non-empty, separator-free field lists gives back the fields |
| Text.SliceTo | powerdns_record.py:257 | `parts[:n]` has length min(n, len) and is the prefix of that length |
| Text.SliceFrom | powerdns_record.py:257 | `parts[n:]` has length len − n, or 0 past the end, and is the suffix of that length |
| Text.TrimStart | powerdns_record.py:315 | the left strip of `strip('"')`: a suffix of the input, not starting with the character, with only that character removed |
| Text.TrimEnd | powerdns_record.py:289-292 | `rstrip('.')`: a prefix of the input, not ending with the character, with only that character removed |
| Text.Strip | powerdns_record.py:315 | `strip('"')`: the right strip of the left strip, so it neither starts nor ends with the character and is a piece of the input |
| Text.LowerChar | powerdns_record.py:308 | an upper-case ASCII letter becomes the lower-case letter at the same alphabet position; the result is never upper-case; other characters are unchanged |
| Text.Join | powerdns_record.py:257 | `' '.join(fields)`: empty for no fields; otherwise it starts with the first field, followed by the separator when there are more |
| Text.IsSubstring | powerdns_record.py:294 | `zone_name in name`: holds whenever the zone is a prefix of the name, and only when it is no longer than the name |
| Text.Lower | powerdns_record.py:308 | same length, and each character lower-cased |
| Text.LowerIdempotent | powerdns_record.py:303-309 | lower-casing twice equals lower-casing once |
| Content.WithoutSerial | powerdns_record.py:256-257 | `parts[:2] + parts[3:]`: the fields without the third one, and unchanged when there are fewer than three |
| Content.Serial | powerdns_record.py:248-250 | the serial exists exactly when there are at least three fields, and holds no space |
| Content.IgnoreSerial | powerdns_record.py:253-257 | the fields of `ignore_serial(c)` are the fields of c without the serial |
| Content.IgnoreSerialShort | powerdns_record.py:253-257 | content with fewer than three fields is returned unchanged |
| Content.ReinsertSerial | powerdns_record.py:248-257 | putting the serial back in third position rebuilds the original content |
| Content.IgnoreSerialEqual | powerdns_record.py:253-257 | two contents have equal `ignore_serial` exactly when their fields agree apart from the serial |
| Content.MatchesExistingContent | powerdns_record.py:260-272 | fails exactly for SOA content with fewer than three fields; apart from SOA serial "0" it is plain membership |
| Content.SerialZeroIsWildcard | powerdns_record.py:266-272 | a desired SOA serial "0" matches exactly when some stored entry has the same fields apart from the serial |
| Content.StoredContentMatches | powerdns_record.py:260-272 | content stored verbatim always matches |
| Content.Quote | powerdns_record.py:312-315 | the result is quoted at both ends; a quoted item is unchanged; otherwise the result is the item's quote-stripped text wrapped in exactly one pair of quotes |
| Content.Sanitize | powerdns_record.py:301-315 | same length; each AAAA item is that item lower-cased; each TXT item is that item quoted, so all are quoted and quoted items are unchanged; other types are unchanged |
| Content.SanitizeIdempotent | powerdns_record.py:301-315 | sanitising sanitised content changes nothing |
| Content.LowerAll | powerdns_record.py:305-309 | the AAAA loop builds exactly the lower-cased list |
| Content.QuoteAll | powerdns_record.py:312-315 | the TXT loop rewrites the array in place into the sanitised list |
| Api.MakeCanonical | powerdns_record.py:183-188 | the result ends with a dot; a dot is added only when the name has none |
| Api.MakeCanonicalIdempotent | powerdns_record.py:183-188 | canonicalising twice equals canonicalising once |
| Api.GetRequestErrorMessage | powerdns_record.py:159-172 | the value of the first of `error`, `errors`, `msg` present in the JSON body; None when it has none of them; the raw text when the body is not JSON |
| Api.HandleRequest | powerdns_record.py:142-157 | succeeds exactly on 200/201/204, with the decoded body or an empty dict; errors keep the status; 404 gives "Not found"; other errors take the extracted message |
| Api.RRSet.Ttl | powerdns_record.py:335 | `record.get('ttl', None)`: None exactly for the placeholder, otherwise the stored ttl |
| Api.RRSet.Contents | powerdns_record.py:299 | the stored contents, one per record, in order; empty for the placeholder |
| Api.SelectRRSet | powerdns_record.py:190-201 | the placeholder exactly when no rrset has the name and type; otherwise the first such rrset |
| Api.GetRequestData | powerdns_record.py:203-217 | the append loop builds exactly the PATCH body `RequestData` describes |
| Api.RequestData | powerdns_record.py:203-217 | the PATCH body as a value: one rrset change with the given name, type, changetype and ttl, one entry per content item in order with `disabled`, `set-ptr` exactly for A/AAAA when requested |
| Client.Replaced | powerdns_record.py:219-237 | the zone after a REPLACE: every rrset under another key stays, anything under the key is the written rrset, and that rrset is there exactly when it has records; nothing else is added |
| Client.StoredRecords | powerdns_record.py:219-237 | the records a REPLACE stores: one per content item, in order, all with the given `disabled` |
| Client.ContentsOfStored | powerdns_record.py:299 | reading back a REPLACE's records gives its content list |
| Client.Without | powerdns_record.py:239-245 | after a DELETE, exactly the rrsets not under the deleted name and type remain |
| Client.SelectAfterDelete | powerdns_record.py:239-245 | after a DELETE, nothing is found under the deleted key |
| Client.SelectAppend | powerdns_record.py:199 | the search of a concatenation falls through to the second part only when the first has no match |
| Client.SelectAfterReplace | powerdns_record.py:219-237 | after a REPLACE, the written rrset is found, or nothing when it has no records |
| Client.SelectOtherAfterDelete | powerdns_record.py:239-245 | a DELETE leaves what is found under every other key unchanged |
| Client.SelectOtherAfterReplace | powerdns_record.py:219-237 | a REPLACE leaves what is found under every other key unchanged |
| Client.PowerDNSClient.constructor | powerdns_record.py:132-140 | a client over the given zone contents, with an empty PATCH log |
| Client.PowerDNSClient.GetRecord | powerdns_record.py:190-201 | a failing GET raises; otherwise the first rrset under the canonical name and type, which is one of the zone's rrsets |
| Client.PowerDNSClient.CreateRecord | powerdns_record.py:219-237 | logs exactly one REPLACE body for the canonical name; unless the write is rejected, the zone then holds exactly that content under the key |
| Client.PowerDNSClient.DeleteRecord | powerdns_record.py:239-245 | logs exactly one DELETE body for the canonical name; unless the write is rejected, the rrset is gone |
| Reconcile.RecordName | powerdns_record.py:287-295 | no trailing dot; the zone is always a substring; the zone is appended exactly when it is not already inside the name |
| Reconcile.Remove | powerdns_record.py:373 | `[c for c in existing if c not in content]`: never longer than the stored list |
| Reconcile.RemoveFacts | powerdns_record.py:373-374 | the filter keeps exactly the items not to be removed, loses length exactly when some stored item is to be removed, and keeps items distinct |
| Reconcile.Pending | powerdns_record.py:333-337 | the items the update loop collects are desired items, and there are at most as many of them |
| Reconcile.Decide | powerdns_record.py:317-393 | present plans are Keep, CreateWith or Merge, absent ones Keep, Prune or DeleteAll; the only failures are ContentMissing, exactly when something is stored, the list is missing and the state is present or `exclusive` is off, and SerialMissing, only for a present SOA; CreateWith only when nothing is stored; absent with nothing stored is Keep |
| Reconcile.BuildPayload | powerdns_record.py:345-349 | the update payload satisfies `MergePayload`: with `exclusive`, `set(record_content + content)` without duplicates; otherwise the stored list in order followed by the desired items not stored yet, each once |
| Reconcile.CollectPending | powerdns_record.py:333-337 | the update loop computes exactly `Pending`, stopping with a failure at the first SOA item without a serial |
| Reconcile.PendingAt | powerdns_record.py:334-337 | one loop step: the item is collected when it does not match or the ttl differs |
| Reconcile.SetToSeq | powerdns_record.py:346 | iterating a set yields each element exactly once |
| Reconcile.ReplaceAndRead | powerdns_record.py:351-359 | the guarded REPLACE and re-read: no PATCH in check mode; a rejected write changes nothing and fails this attempt; otherwise (True, re-read rrset) |
| Reconcile.DeleteRecordset | powerdns_record.py:361-370 | the guarded DELETE: no PATCH in check mode; a rejected write fails; otherwise (True, None) |
| Reconcile.CarriesOutFacts | powerdns_record.py:317-393 | at most one PATCH; check mode sends none and leaves the zone unchanged; `changed` holds exactly when the plan is not Keep; a delete returns no record |
| Reconcile.NormalizeName | powerdns_record.py:287-295 | the name and zone normalisation steps compute `RecordName` and the dot-less zone |
| Reconcile.SanitizeContent | powerdns_record.py:301-315 | the sanitising step computes the sanitised list, or None when no list was given |
| Reconcile.EnsurePresent | powerdns_record.py:317-359 | the present branch carries out `Decide`'s plan for the stored rrset |
| Reconcile.EnsureAbsent | powerdns_record.py:360-393 | the absent branch carries out `Decide`'s plan for the stored rrset |
| Reconcile.Run | powerdns_record.py:275-393 | a failing read fails with nothing sent; otherwise the invocation carries out `Decide`'s plan for what was read |
| Reconcile.Ensure | powerdns_record.py:275-393 | as `Run`, and in addition: at most one PATCH; none in check mode; `changed` exactly when the plan is not Keep |
| ReconcileProperties.KeyHasOneTrailingDot | powerdns_record.py:287-298 | the name used for the API ends in exactly one dot |
| ReconcileProperties.RecordNameIdempotent | powerdns_record.py:287-295 | normalising a normalised name changes nothing |
| ReconcileProperties.ZoneInsideNameIsNotAppended | powerdns_record.py:294-295 | name `mail` in zone `ai` is left as `mail` (substring, not suffix, test) |
| ReconcileProperties.PendingFailsIff | powerdns_record.py:333-335 | the update loop fails exactly when some desired item has no SOA serial |
| ReconcileProperties.PendingEmptyIff | powerdns_record.py:333-337 | the loop collects nothing exactly when there are no items, or the ttl is equal and every item matches |
| ReconcileProperties.PresentCreatesWhenNothingStored | powerdns_record.py:320-328 | present with nothing stored always creates, with the content as given, empty or missing included |
| ReconcileProperties.PresentKeepIff | powerdns_record.py:333-343 | present with something stored changes nothing exactly when the list is empty, or every item matches, the ttl is equal and the exclusive size test does not fire; otherwise it rewrites |
| ReconcileProperties.PresentRejectsShortSoa | powerdns_record.py:266-268 | present with something stored fails when an SOA item has fewer than three fields |
| ReconcileProperties.MergeKeepsStored | powerdns_record.py:345-349 | a non-exclusive update keeps every stored entry in place, and its items are the stored items together with the desired ones |
| ReconcileProperties.AbsentExclusiveDeletes | powerdns_record.py:361-366 | absent and exclusive with something stored deletes the rrset |
| ReconcileProperties.AbsentPrunes | powerdns_record.py:371-379 | absent and non-exclusive rewrites with the stored items that are not desired, exactly when one of them is desired; it never deletes, even when nothing remains |
| ReconcileProperties.RemoveKeepsOrder | powerdns_record.py:373 | the remainder keeps the stored order: the filter distributes over concatenation |
| ReconcileProperties.AbsentNothingStored | powerdns_record.py:360-393 | absent with nothing stored changes nothing |
| ReconcileProperties.SoaSerialCases | powerdns_record.py:266-272 | a four-field SOA with serial 0 matches any stored serial; a different non-zero serial does not match |
| ReconcileProperties.KnownFields | powerdns_record.py:256 | four space-free fields joined by spaces split back into those fields |
| ReconcileProperties.TxtQuoteCases | powerdns_record.py:312-315 | `hello` becomes `"hello"`, and `"hello"` is left as it is |
| ReconcileProperties.ExclusiveCases | powerdns_record.py:333-349 | exclusive {a, b} against stored {a, b, c} rewrites to exactly {a, b}; against stored {a, b} with the same ttl it changes nothing |
| ReconcileProperties.MergeCase | powerdns_record.py:333-349 | non-exclusive {b} against stored {a} writes exactly [a, b] |
| ReconcileProperties.DistinctCount | powerdns_record.py:340 | a list without duplicates has as many distinct items as entries |
| ReconcileProperties.OnlyItem | powerdns_record.py:346 | a duplicate-free list with one distinct item x is [x] |
| ReconcileProperties.PruneCases | powerdns_record.py:371-379 | removing a from stored {a, b} leaves [b]; removing both sends an empty REPLACE |
| ReconcileProperties.DecideIdempotent | powerdns_record.py:317-393 | after any write, deciding again against what the write left gives Keep (present needs a non-empty list, present SOA items their serials) |
| ReconcileProperties.RunLeavesNothingToDo | powerdns_record.py:275-393 | after a successful real run, the plan for the resulting zone is Keep (present needs a non-empty list, present SOA items their serials) |
| ReconcileProperties.EnsureTwice | powerdns_record.py:275-393 | outside check mode, a second invocation with the same parameters after a successful one succeeds and reports no change, and the two send at most one PATCH between them (present needs a non-empty list, present SOA items their serials) |
| ReconcileProperties.StoredUnderKey | powerdns_record.py:324-328 | after a REPLACE under the key, the re-read gives that content, and the ttl unless the content is empty |

## Left out

- Transport, authentication, TLS, the URLs and the `server` parameter are not modelled. The client class stands in for the HTTP session.
- The client's read and write errors are constants of the client, so a re-read after a successful write cannot fail in the model. The `WriteFailed` path of a failing re-read is therefore not reachable.
- The server's effect of a PATCH is an assumption of the model, not something the module defines:
  - REPLACE replaces the rrset of that name and type;
  - REPLACE with no records leaves none;
  - DELETE removes it.
- Text.Lower: only ASCII letters are lower-cased. Python's `str.lower` also folds non-ASCII letters.
- Api.HandleRequest: a JSON body is modelled as a map from string to string. Bodies that are not objects, and non-string values, are not modelled.
- A zone read whose body has no `rrsets` key (a `KeyError`) is not modelled.
- Stored records without a `content` field are not modelled.
- The TXT loop mutates the caller's own parameter list in place. The model quotes a copy.
- `comments` on rrsets are not modelled.
- `main`, AnsibleModule, `fail_json`'s exit, the `print` calls, the DOCUMENTATION/EXAMPLES strings and `HAS_REQUESTS` are not modelled.
- Reconcile.SetToSeq: the order Python iterates a set in is not modelled. Any duplicate-free order of the same elements is allowed.
- ReconcileProperties.DecideIdempotent, ReconcileProperties.RunLeavesNothingToDo, ReconcileProperties.EnsureTwice: with `state=present` they need the content list given and non-empty, and SOA items with three fields; `state=absent` needs neither. An empty or missing present list against nothing stored sends a REPLACE with no records, and that REPLACE is sent again on every run. A short SOA item is created, then makes `serial` fail on the next run.
