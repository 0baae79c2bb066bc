/** `document_generator` and `send_to_elasticsearch`: each document
    becomes a bulk `create` action whose `_id` is its content hash, and the
    bulk request's per-document failures and transport faults are reported
    rather than raised. The search cluster is modelled as a map from
    (index, id) to stored document with `create` semantics: an id that is
    already taken is rejected and the stored document is left alone. */
module Bulk {
  import opened Wrappers
  import opened PyData
  import Transform

  /** One bulk action: `{"_op_type": ..., "_index": ..., "_id": ..., "_source": ...}`. */
  datatype Action = Action(opType: string, index: Value, id: Value, source: Value)

  /** The action `document_generator` yields for one record: a `create`
      of the whole record in the given index, under the record's `hash`. */
  function ActionFor(indexName: Value, record: Value): (r: Result<Action, Exception>)
    ensures r.Success? <==> record.JObj? && "hash" in Keys(record.fields)
    ensures r.Failure? ==> r.error == (if record.JObj? then KeyError("hash") else TypeError)
    ensures r.Success? ==> r.value == Action("create", indexName, Get(record.fields, "hash").value, record)
  {
    var id :- Subscript(record, "hash");
    Success(Action("create", indexName, id, record))
  }

  /** `document_generator(records, index_name)`: one `create` action per
      record, in record order, keyed by the record's `hash`. Looking up
      `record["hash"]` raises KeyError for a record without one. */
  function DocumentGenerator(records: seq<Value>, indexName: Value): (r: Result<seq<Action>, Exception>)
    ensures r.Success? <==> forall i :: 0 <= i < |records| ==> records[i].JObj? && "hash" in Keys(records[i].fields)
    ensures r.Failure? ==> r.error == KeyError("hash") || r.error == TypeError
    ensures r.Success? ==> |r.value| == |records|
    ensures r.Success? ==> forall i :: 0 <= i < |records| ==>
      && r.value[i].opType == "create"
      && r.value[i].index == indexName
      && Get(records[i].fields, "hash") == Some(r.value[i].id)
      && r.value[i].source == records[i]
  {
    var r := MapResult(record => ActionFor(indexName, record), records);
    if r.Failure? then
      MapResultRaisesFromElement(record => ActionFor(indexName, record), records);
      r
    else r
  }

  /** A dictionary without `hash` stops the generator with KeyError, and
      nothing is yielded past it. */
  lemma GeneratorStopsAtMissingHash(records: seq<Value>, indexName: Value, i: nat)
    requires i < |records| && records[i].JObj? && "hash" !in Keys(records[i].fields)
    requires forall j :: 0 <= j < i ==> records[j].JObj? && "hash" in Keys(records[j].fields)
    ensures DocumentGenerator(records, indexName) == Failure(KeyError("hash"))
  {
    MapResultFirstFailure(record => ActionFor(indexName, record), records, i);
  }

  /** The sources of the actions are the records themselves, in order. */
  function Sources(actions: seq<Action>): (rs: seq<Value>)
    ensures |rs| == |actions|
    ensures forall i :: 0 <= i < |actions| ==> rs[i] == actions[i].source
  {
    if |actions| == 0 then [] else [actions[0].source] + Sources(actions[1..])
  }

  lemma GeneratorKeepsRecords(records: seq<Value>, indexName: Value)
    requires DocumentGenerator(records, indexName).Success?
    ensures Sources(DocumentGenerator(records, indexName).value) == records
  {
  }

  /** The documents format_data produces always have a hash, so every one
      of them becomes an action, and the action's id is the content hash
      of the entity the document came from. */
  lemma GeneratorAcceptsFormattedData(variant: Transform.Variant, entities: seq<Value>,
                                      fingerprint: Transform.Fingerprint, indexName: Value)
    requires Transform.FormatData(variant, entities, fingerprint).Success?
    ensures var docs := Transform.FormatData(variant, entities, fingerprint).value;
      && DocumentGenerator(docs, indexName).Success?
      && forall i :: 0 <= i < |entities| ==>
           DocumentGenerator(docs, indexName).value[i].id == JStr(Transform.ContentHash(entities[i], fingerprint))
  {
    var docs := Transform.FormatData(variant, entities, fingerprint).value;
    forall i | 0 <= i < |entities|
      ensures docs[i].JObj? && Get(docs[i].fields, "hash") == Some(JStr(Transform.ContentHash(entities[i], fingerprint)))
    {
      Transform.FormatRecordContents(variant, entities[i], fingerprint);
    }
  }

  /** Where a document lives in the cluster. */
  datatype DocKey = DocKey(index: Value, id: Value)

  type Store = map<DocKey, Value>

  function KeyOf(a: Action): DocKey {
    DocKey(a.index, a.id)
  }

  /** The outcome of a bulk run: the cluster afterwards and the actions it
      rejected, which `send_to_elasticsearch` only logs. */
  datatype BulkResult = BulkResult(store: Store, failed: seq<Action>)

  /** Action `i` of a batch finds its id taken: by a document already in
      the cluster, or by an earlier action of the same batch. */
  predicate Taken(store: Store, actions: seq<Action>, i: int)
    requires 0 <= i < |actions|
  {
    KeyOf(actions[i]) in store || exists j :: 0 <= j < i && KeyOf(actions[j]) == KeyOf(actions[i])
  }

  /** Applying `create` actions in order: an action whose id is free stores
      its source; one whose id is taken is rejected with the store
      unchanged. */
  function ApplyAll(store: Store, actions: seq<Action>): (r: BulkResult)
    ensures forall k :: k in store ==> k in r.store && r.store[k] == store[k]
    ensures r.store.Keys == store.Keys + set a | a in actions :: KeyOf(a)
    ensures forall a :: a in r.failed ==> a in actions && KeyOf(a) in r.store
    ensures |r.failed| <= |actions|
    decreases |actions|
  {
    if |actions| == 0 then BulkResult(store, [])
    else
      var a := actions[0];
      var next := AfterFirst(store, a);
      var rest := ApplyAll(next, actions[1..]);
      assert forall b :: b in actions <==> b == a || b in actions[1..];
      if KeyOf(a) in store then BulkResult(rest.store, [a] + rest.failed) else rest
  }

  /** The first action of a batch applied on its own: what the recursion
      of ApplyAll does before moving on. */
  function AfterFirst(store: Store, a: Action): Store {
    if KeyOf(a) in store then store else store[KeyOf(a) := a.source]
  }

  /** One step of ApplyAll: the first action, then the rest from the
      store it leaves. */
  lemma ApplyAllFirst(store: Store, actions: seq<Action>)
    requires |actions| > 0
    ensures var rest := ApplyAll(AfterFirst(store, actions[0]), actions[1..]);
      && ApplyAll(store, actions).store == rest.store
      && ApplyAll(store, actions).failed == (if KeyOf(actions[0]) in store then [actions[0]] else []) + rest.failed
  {
  }

  /** Every action whose id is taken is rejected. */
  lemma {:induction false} ApplyAllRejectsTaken(store: Store, actions: seq<Action>)
    ensures var r := ApplyAll(store, actions);
      forall i :: 0 <= i < |actions| && Taken(store, actions, i) ==> actions[i] in r.failed
    decreases |actions|
  {
    if |actions| > 0 {
      var next := AfterFirst(store, actions[0]);
      var tail := actions[1..];
      ApplyAllRejectsTaken(next, tail);
      TakenAfterFirst(store, actions);
      ApplyAllFirst(store, actions);
      var failed := ApplyAll(store, actions).failed;
      forall i | 0 <= i < |actions| && Taken(store, actions, i) ensures actions[i] in failed {
        if i > 0 {
          assert tail[i - 1] == actions[i];
          assert Taken(next, tail, i - 1);
        }
      }
    }
  }

  /** Only actions whose id is taken are rejected. */
  lemma {:induction false} ApplyAllRejectsOnlyTaken(store: Store, actions: seq<Action>)
    ensures var r := ApplyAll(store, actions);
      forall a :: a in r.failed ==> exists i :: 0 <= i < |actions| && actions[i] == a && Taken(store, actions, i)
    decreases |actions|
  {
    if |actions| > 0 {
      var next := AfterFirst(store, actions[0]);
      var tail := actions[1..];
      ApplyAllRejectsOnlyTaken(next, tail);
      TakenAfterFirst(store, actions);
      ApplyAllFirst(store, actions);
      forall b | b in ApplyAll(next, tail).failed
        ensures exists i :: 0 <= i < |actions| && actions[i] == b && Taken(store, actions, i)
      {
        var k :| 0 <= k < |tail| && tail[k] == b && Taken(next, tail, k);
        assert actions[k + 1] == b && Taken(store, actions, k + 1);
      }
      if KeyOf(actions[0]) in store {
        assert Taken(store, actions, 0);
      }
    }
  }

  /** Each action whose id is free stores its own source under that id. */
  lemma {:induction false} ApplyAllStoresFree(store: Store, actions: seq<Action>)
    ensures var r := ApplyAll(store, actions);
      forall i :: 0 <= i < |actions| && !Taken(store, actions, i) ==>
        KeyOf(actions[i]) in r.store && r.store[KeyOf(actions[i])] == actions[i].source
    decreases |actions|
  {
    if |actions| > 0 {
      var next := AfterFirst(store, actions[0]);
      var tail := actions[1..];
      ApplyAllStoresFree(next, tail);
      TakenAfterFirst(store, actions);
      ApplyAllFirst(store, actions);
      var stored := ApplyAll(store, actions).store;
      forall i | 0 <= i < |actions| && !Taken(store, actions, i)
        ensures KeyOf(actions[i]) in stored && stored[KeyOf(actions[i])] == actions[i].source
      {
        if i > 0 {
          assert tail[i - 1] == actions[i];
          assert !Taken(next, tail, i - 1);
        }
      }
    }
  }

  /** Every action is either rejected or adds exactly one new id. */
  lemma {:induction false} ApplyAllCounts(store: Store, actions: seq<Action>)
    ensures var r := ApplyAll(store, actions);
      |r.failed| + |r.store| == |actions| + |store|
    decreases |actions|
  {
    if |actions| > 0 {
      ApplyAllCounts(AfterFirst(store, actions[0]), actions[1..]);
    }
  }

  /** Once the first action has been applied, each later action finds its
      id taken exactly when it did in the whole batch. */
  lemma TakenAfterFirst(store: Store, actions: seq<Action>)
    requires |actions| > 0
    ensures forall i :: 1 <= i < |actions| ==>
      (Taken(store, actions, i) <==> Taken(AfterFirst(store, actions[0]), actions[1..], i - 1))
  {
    var a := actions[0];
    var next := AfterFirst(store, a);
    var tail := actions[1..];
    forall i | 1 <= i < |actions| ensures Taken(store, actions, i) <==> Taken(next, tail, i - 1) {
      assert tail[i - 1] == actions[i];
      if Taken(store, actions, i) && KeyOf(actions[i]) !in store {
        var j :| 0 <= j < i && KeyOf(actions[j]) == KeyOf(actions[i]);
        if j > 0 {
          assert tail[j - 1] == actions[j];
        }
      }
      if Taken(next, tail, i - 1) && KeyOf(actions[i]) !in store {
        if KeyOf(actions[i]) !in next {
          var j :| 0 <= j < i - 1 && KeyOf(tail[j]) == KeyOf(tail[i - 1]);
          assert actions[j + 1] == tail[j];
        }
      }
    }
  }

  /** An entity that appears twice in one feed is stored once; the second
      `create` for the same hash is rejected. */
  lemma RepeatedActionRejectedOnce(store: Store, a: Action)
    requires KeyOf(a) !in store
    ensures ApplyAll(store, [a, a]) == BulkResult(store[KeyOf(a) := a.source], [a])
  {
    assert [a, a][1..] == [a];
  }

  /** Re-sending a batch that was already applied changes nothing: every
      action is rejected as a duplicate. Keying documents by content hash
      is what makes a repeated poll of an unchanged feed harmless. */
  lemma {:induction false} ApplyAllIdempotent(store: Store, actions: seq<Action>)
    ensures var once := ApplyAll(store, actions);
      ApplyAll(once.store, actions) == BulkResult(once.store, actions)
  {
    AllTakenRejected(ApplyAll(store, actions).store, actions);
  }

  /** When every action's id is already taken, the store is unchanged and
      every action is reported as failed, in order. */
  lemma {:induction false} AllTakenRejected(store: Store, actions: seq<Action>)
    requires forall a :: a in actions ==> KeyOf(a) in store
    ensures ApplyAll(store, actions) == BulkResult(store, actions)
  {
    if |actions| > 0 {
      assert actions[0] in actions;
      assert forall a :: a in actions[1..] ==> a in actions;
      AllTakenRejected(store, actions[1..]);
      assert [actions[0]] + actions[1..] == actions;
    }
  }

  /** A batch of distinct ids none of which is taken yet: nothing is
      rejected and each document is stored under its id. */
  lemma {:induction false} DistinctIdsAllStored(store: Store, actions: seq<Action>)
    requires forall a :: a in actions ==> KeyOf(a) !in store
    requires forall i, j :: 0 <= i < j < |actions| ==> KeyOf(actions[i]) != KeyOf(actions[j])
    ensures ApplyAll(store, actions).failed == []
    ensures forall a :: a in actions ==> ApplyAll(store, actions).store[KeyOf(a)] == a.source
    decreases |actions|
  {
    if |actions| > 0 {
      var a := actions[0];
      var rest := actions[1..];
      assert a in actions;
      assert forall b :: b in rest ==> b in actions;
      forall b | b in rest ensures KeyOf(b) !in store[KeyOf(a) := a.source] {
        var j :| 0 <= j < |rest| && rest[j] == b;
        assert actions[j + 1] == b;
      }
      forall i, j | 0 <= i < j < |rest| ensures KeyOf(rest[i]) != KeyOf(rest[j]) {
        assert rest[i] == actions[i + 1] && rest[j] == actions[j + 1];
      }
      DistinctIdsAllStored(store[KeyOf(a) := a.source], rest);
    }
  }

  /** The three exceptions `send_to_elasticsearch` catches and logs. */
  predicate Caught(e: Exception) {
    e == ConnectionError || e == TransportError || e == RequestError
  }

  /** The connection to the cluster during one bulk run: it either stays up
      or breaks after the first `sent` actions with `fault`. */
  datatype Link = Up | DropsAfter(sent: nat, fault: Exception)

  /** What `send_to_elasticsearch` leaves behind when it returns normally:
      the cluster, the rejected actions it logged, and the transport fault
      it caught, if any. */
  datatype SendReport = SendReport(store: Store, failed: seq<Action>, caught: Option<Exception>)

  /** `send_to_elasticsearch(es, records, index_name)` with
      `raise_on_error=False`: per-document failures are logged, the three
      transport exceptions are caught and logged, anything else raises. */
  function SendToElasticsearch(store: Store, records: seq<Value>, indexName: Value, link: Link): (r: Result<SendReport, Exception>)
    ensures r.Failure? <==>
      || DocumentGenerator(records, indexName).Failure?
      || (link.DropsAfter? && link.sent < |records| && !Caught(link.fault))
    ensures r.Failure? ==> !Caught(r.error)
    ensures r.Success? ==> (r.value.caught.Some? <==> link.DropsAfter? && link.sent < |records|)
    ensures r.Success? ==> forall k :: k in store ==> k in r.value.store && r.value.store[k] == store[k]
  {
    var actions :- DocumentGenerator(records, indexName);
    match link
    case Up =>
      var result := ApplyAll(store, actions);
      Success(SendReport(result.store, result.failed, None))
    case DropsAfter(sent, fault) =>
      if sent >= |actions| then
        var result := ApplyAll(store, actions);
        Success(SendReport(result.store, result.failed, None))
      else
        var result := ApplyAll(store, actions[..sent]);
        if Caught(fault) then Success(SendReport(result.store, result.failed, Some(fault)))
        else Failure(fault)
  }

  /** With the link up, every record reaches the cluster under its own
      hash, and nothing else is added. */
  lemma SendDeliversAll(store: Store, records: seq<Value>, indexName: Value)
    requires DocumentGenerator(records, indexName).Success?
    ensures var r := SendToElasticsearch(store, records, indexName, Up);
      && r.Success?
      && (forall i :: 0 <= i < |records| ==> DocKey(indexName, Get(records[i].fields, "hash").value) in r.value.store)
      && (forall k :: k in r.value.store ==>
            k in store || exists i :: 0 <= i < |records| && k == DocKey(indexName, Get(records[i].fields, "hash").value))
  {
    var actions := DocumentGenerator(records, indexName).value;
    var after := SendToElasticsearch(store, records, indexName, Up).value.store;
    assert after == ApplyAll(store, actions).store;
    ApplyAllKeys(store, actions);
    forall i | 0 <= i < |records|
      ensures KeyOf(actions[i]) == DocKey(indexName, Get(records[i].fields, "hash").value)
    {
    }
  }

  /** Every action's key is taken afterwards, and every newly taken key is
      some action's. */
  lemma ApplyAllKeys(store: Store, actions: seq<Action>)
    ensures forall i :: 0 <= i < |actions| ==> KeyOf(actions[i]) in ApplyAll(store, actions).store
    ensures forall k :: k in ApplyAll(store, actions).store ==>
      k in store || exists i :: 0 <= i < |actions| && KeyOf(actions[i]) == k
  {
    var after := ApplyAll(store, actions).store;
    forall i | 0 <= i < |actions| ensures KeyOf(actions[i]) in after {
      assert actions[i] in actions;
    }
    forall k | k in after && k !in store
      ensures exists i :: 0 <= i < |actions| && KeyOf(actions[i]) == k
    {
      var a :| a in actions && KeyOf(a) == k;
      var i :| 0 <= i < |actions| && actions[i] == a;
    }
  }
}
