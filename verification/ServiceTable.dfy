/** The service table of a log batch: each entry carries an index instead of its service name. */
module ServiceTable {
  import opened Sequences
  import opened LogServer

  const U16: nat := 0x1_0000

  datatype CompactEntry = CompactEntry(id: int, serviceId: nat, line: string)

  ghost predicate SameButService(entries: Log, compact: seq<CompactEntry>) {
    && |compact| == |entries|
    && forall i :: 0 <= i < |entries| ==> compact[i].id == entries[i].id && compact[i].line == entries[i].line
  }

  ghost function Services(entries: Log): set<string> {
    set e | e in entries :: e.service
  }

  lemma ServicesAppend(done: Log, e: LogEntry)
    ensures Services(done + [e]) == Services(done) + {e.service}
  {
    assert forall x :: x in done + [e] <==> x in done || x == e;
    assert e in done + [e];
  }

  /** The lookup the client makes for one entry: `service_table[service_id]`. */
  ghost predicate LooksUp(table: seq<string>, compact: CompactEntry, service: string) {
    compact.serviceId < |table| && table[compact.serviceId] == service
  }

  ghost predicate Lossless(entries: Log, table: seq<string>, compact: seq<CompactEntry>) {
    && SameButService(entries, compact)
    && forall i :: 0 <= i < |entries| ==> LooksUp(table, compact[i], entries[i].service)
  }

  /** Each service at its place in the table, ids cut to 16 bits. */
  ghost predicate Numbered(entries: Log, table: seq<string>, place: map<string, nat>, compact: seq<CompactEntry>) {
    && place.Keys == Elements(table) == Services(entries)
    && (forall s :: s in place ==> place[s] < |table| && table[place[s]] == s)
    && SameButService(entries, compact)
    && (forall i :: 0 <= i < |entries| ==>
          entries[i].service in place && compact[i].serviceId == place[entries[i].service] % U16)
  }

  lemma LosslessIffSmall(entries: Log, table: seq<string>, place: map<string, nat>, compact: seq<CompactEntry>)
    requires Distinct(table) && Numbered(entries, table, place, compact)
    ensures Lossless(entries, table, compact) <==> |table| <= U16
  {
    if |table| > U16 {
      var s := table[U16];
      assert s in Elements(table);
      assert s in Services(entries);
      var e :| e in entries && e.service == s;
      var i :| 0 <= i < |entries| && entries[i] == e;
      assert place[s] == U16;
      assert !LooksUp(table, compact[i], s);
    }
  }

  lemma {:induction false} TableNotLonger(entries: Log)
    ensures |Services(entries)| <= |entries|
  {
    if entries == [] {
    } else {
      var last := |entries| - 1;
      TableNotLonger(entries[..last]);
      ServicesAppend(entries[..last], entries[last]);
      assert entries == entries[..last] + [entries[last]];
    }
  }

  lemma NumberKnown(done: Log, table: seq<string>, place: map<string, nat>, compact: seq<CompactEntry>, e: LogEntry)
    requires Numbered(done, table, place, compact) && e.service in place
    ensures Numbered(done + [e], table, place, compact + [CompactEntry(e.id, place[e.service] % U16, e.line)])
  {
    ServicesAppend(done, e);
  }

  lemma NumberNew(done: Log, table: seq<string>, place: map<string, nat>, compact: seq<CompactEntry>, e: LogEntry)
    requires Distinct(table) && Numbered(done, table, place, compact) && e.service !in place
    ensures Distinct(table + [e.service])
    ensures Numbered(done + [e], table + [e.service], place[e.service := |table|],
                     compact + [CompactEntry(e.id, |table| % U16, e.line)])
  {
    ServicesAppend(done, e);
    assert Elements(table + [e.service]) == Elements(table) + {e.service};
  }

  /** The table-building loop. The cast to 16 bits loses a name exactly when there are more than 2^16. */
  method Compact(entries: Log) returns (table: seq<string>, compact: seq<CompactEntry>)
    ensures Distinct(table) && Elements(table) == Services(entries)
    ensures SameButService(entries, compact)
    ensures Lossless(entries, table, compact) <==> |table| <= U16
    ensures |entries| <= STREAM_CHUNK_SIZE ==> Lossless(entries, table, compact)
  {
    table, compact := [], [];
    var serviceMap: map<string, nat> := map[];
    ghost var place: map<string, nat> := map[];
    for k := 0 to |entries|
      invariant Distinct(table)
      invariant Numbered(entries[..k], table, place, compact)
      invariant serviceMap.Keys == place.Keys && forall s :: s in place ==> serviceMap[s] == place[s] % U16
    {
      var service := entries[k].service;
      var serviceId;
      assert entries[..k + 1] == entries[..k] + [entries[k]];
      if service in serviceMap {
        NumberKnown(entries[..k], table, place, compact, entries[k]);
        serviceId := serviceMap[service];
      } else {
        NumberNew(entries[..k], table, place, compact, entries[k]);
        serviceId := |table| % U16;
        place := place[service := |table|];
        table := table + [service];
        serviceMap := serviceMap[service := serviceId];
      }
      compact := compact + [CompactEntry(entries[k].id, serviceId, entries[k].line)];
    }
    assert entries[..|entries|] == entries;
    LosslessIffSmall(entries, table, place, compact);
    DistinctSize(table);
    TableNotLonger(entries);
  }
}
