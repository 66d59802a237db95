/** The web push store (server/webpush_store.go): two tables that together stand for one map from
    endpoint to subscription. */
module WebPushStore {
  import opened Text
  import opened Ordering

  const ENDPOINTS_PER_IP := 10

  /** A row of the subscription table, by subscription id. */
  datatype Row = Row(endpoint: string, auth: string, p256dh: string, userId: string, ip: string, updatedAt: int)

  /** The subscription table, and the (subscription id, topic) rows of subscription_topic. */
  datatype Tables = Tables(subscriptions: map<string, Row>, topics: set<(string, string)>)

  /** What a live endpoint was last registered with. */
  datatype Registration = Registration(row: Row, topics: set<string>)

  type Registry = map<string, Registration>

  ghost predicate UniqueEndpoints(t: Tables) {
    forall a, b ::
      a in t.subscriptions && b in t.subscriptions && t.subscriptions[a].endpoint == t.subscriptions[b].endpoint ==>
      a == b
  }

  function TopicsOf(t: Tables, id: string): set<string> {
    set r | r in t.topics && r.0 == id :: r.1
  }

  predicate Holds(t: Tables, endpoint: string, id: string) {
    id in t.subscriptions && t.subscriptions[id].endpoint == endpoint
  }

  /** The tables stand for m. Topic rows of ids that are gone do not matter. */
  ghost predicate StandsFor(t: Tables, m: Registry) {
    && UniqueEndpoints(t)
    && (forall id :: id in t.subscriptions ==>
          t.subscriptions[id].endpoint in m
            && m[t.subscriptions[id].endpoint] == Registration(t.subscriptions[id], TopicsOf(t, id)))
    && (forall e :: e in m ==> exists id :: Holds(t, e, id))
  }

  /* ---- the operations on the map ---- */

  function EndpointsOfIp(m: Registry, ip: string): set<string> {
    set e | e in m && m[e].row.ip == ip
  }

  predicate Repeats(topics: seq<string>) { exists i, j :: 0 <= i < j < |topics| && topics[i] == topics[j] }

  function TopicSet(topics: seq<string>): set<string> { set i | 0 <= i < |topics| :: topics[i] }

  predicate UpsertAllowed(m: Registry, row: Row, topics: seq<string>) {
    (row.endpoint in m || |EndpointsOfIp(m, row.ip)| < ENDPOINTS_PER_IP) && !Repeats(topics)
  }

  function Upserted(m: Registry, row: Row, topics: seq<string>): Registry {
    m[row.endpoint := Registration(row, TopicSet(topics))]
  }

  function WithoutUser(m: Registry, userId: string): Registry { map e | e in m && m[e].row.userId != userId :: m[e] }

  function WithoutOlder(m: Registry, cutoff: int): Registry { map e | e in m && m[e].row.updatedAt > cutoff :: m[e] }

  function EndpointsFor(m: Registry, topic: string): set<string> { set e | e in m && topic in m[e].topics }

  /** The endpoint is registered in both with the same row and topics, or in neither. */
  predicate SameEntry(a: Registry, b: Registry, e: string) { (e in a <==> e in b) && (e in a ==> a[e] == b[e]) }

  lemma TopicSetMembers(topics: seq<string>)
    ensures forall x :: x in TopicSet(topics) <==> x in topics
  {}

  /* ---- the same on the tables ---- */

  function IdsOfIp(t: Tables, ip: string): set<string> {
    set id | id in t.subscriptions && t.subscriptions[id].ip == ip
  }

  lemma {:induction false} ImageSize(t: Tables, ids: set<string>)
    requires UniqueEndpoints(t) && ids <= t.subscriptions.Keys
    ensures |set id | id in ids :: t.subscriptions[id].endpoint| == |ids|
  {
    if ids != {} {
      var x :| x in ids;
      ImageSize(t, ids - {x});
      var rest := set id | id in ids - {x} :: t.subscriptions[id].endpoint;
      assert (set id | id in ids :: t.subscriptions[id].endpoint) == rest + {t.subscriptions[x].endpoint};
      assert t.subscriptions[x].endpoint !in rest;
    }
  }

  /** Counting the rows of an address counts its endpoints. */
  lemma IpCount(t: Tables, m: Registry, ip: string)
    requires StandsFor(t, m)
    ensures |IdsOfIp(t, ip)| == |EndpointsOfIp(m, ip)|
  {
    ImageSize(t, IdsOfIp(t, ip));
    var image := set id | id in IdsOfIp(t, ip) :: t.subscriptions[id].endpoint;
    forall e ensures e in image <==> e in EndpointsOfIp(m, ip) {
      if e in EndpointsOfIp(m, ip) {
        var id :| Holds(t, e, id);
        assert id in IdsOfIp(t, ip);
      }
    }
    assert image == EndpointsOfIp(m, ip);
  }

  function PutTables(t: Tables, id: string, row: Row, topics: set<string>): Tables {
    Tables(t.subscriptions[id := row], (set r | r in t.topics && r.0 != id) + (set x | x in topics :: (id, x)))
  }

  lemma PutTopicsOf(t: Tables, id: string, row: Row, topics: set<string>, x: string)
    ensures TopicsOf(PutTables(t, id, row, topics), x) == if x == id then topics else TopicsOf(t, x)
  {
    var n := PutTables(t, id, row, topics);
    forall y ensures y in TopicsOf(n, x) <==> if x == id then y in topics else y in TopicsOf(t, x) {
      assert y in TopicsOf(n, x) <==> (x, y) in n.topics;
      assert y in TopicsOf(t, x) <==> (x, y) in t.topics;
    }
  }

  /** Writing a row under the endpoint's id, or under an unused id for a new endpoint, and replacing its
      topics, registers the endpoint. */
  lemma PutStandsFor(t: Tables, m: Registry, id: string, row: Row, topics: set<string>)
    requires StandsFor(t, m)
    requires Holds(t, row.endpoint, id) || (row.endpoint !in m && id !in t.subscriptions)
    ensures StandsFor(PutTables(t, id, row, topics), m[row.endpoint := Registration(row, topics)])
  {
    var n, r := PutTables(t, id, row, topics), m[row.endpoint := Registration(row, topics)];
    forall x | x in n.subscriptions
      ensures n.subscriptions[x].endpoint in r
        && r[n.subscriptions[x].endpoint] == Registration(n.subscriptions[x], TopicsOf(n, x))
    {
      PutTopicsOf(t, id, row, topics, x);
    }
    forall e | e in r ensures exists x :: Holds(n, e, x) {
      if e == row.endpoint {
        assert Holds(n, e, id);
      } else {
        var x :| Holds(t, e, x);
        assert Holds(n, e, x);
      }
    }
  }

  /** Deleting rows forgets their endpoints, whether or not their topic rows go too. */
  lemma DropStandsFor(t: Tables, m: Registry, n: Tables, r: Registry)
    requires StandsFor(t, m)
    requires forall id :: id in n.subscriptions ==> id in t.subscriptions && n.subscriptions[id] == t.subscriptions[id]
    requires forall id :: id in n.subscriptions ==> TopicsOf(n, id) == TopicsOf(t, id)
    requires forall e :: e in r ==> e in m && r[e] == m[e]
    requires forall id :: id in t.subscriptions ==> (id in n.subscriptions <==> t.subscriptions[id].endpoint in r)
    ensures StandsFor(n, r)
  {
    forall e | e in r ensures exists id :: Holds(n, e, id) {
      var id :| Holds(t, e, id);
      assert Holds(n, e, id);
    }
  }

  lemma JoinGivesEndpoints(t: Tables, m: Registry, topic: string)
    requires StandsFor(t, m)
    ensures (set r | r in t.topics && r.1 == topic && r.0 in t.subscriptions :: t.subscriptions[r.0].endpoint)
      == EndpointsFor(m, topic)
  {
    var join := set r | r in t.topics && r.1 == topic && r.0 in t.subscriptions :: t.subscriptions[r.0].endpoint;
    forall e ensures e in join <==> e in EndpointsFor(m, topic) {
      if e in EndpointsFor(m, topic) {
        var id :| Holds(t, e, id);
        assert (id, topic) in t.topics;
      }
      if e in join {
        var r :| r in t.topics && r.1 == topic && r.0 in t.subscriptions && t.subscriptions[r.0].endpoint == e;
        assert topic in TopicsOf(t, r.0);
      }
    }
  }

  /** The number of endpoints of one address can pass the limit: it is checked only for endpoints that
      are new, not for known ones that move to the address. */
  lemma LimitPassedByMoving(m: Registry, row: Row, topics: seq<string>)
    requires !Repeats(topics)
    ensures UpsertAllowed(m, row, topics) && |EndpointsOfIp(m, row.ip)| <= ENDPOINTS_PER_IP
            && |EndpointsOfIp(Upserted(m, row, topics), row.ip)| > ENDPOINTS_PER_IP
       <==> row.endpoint in m && m[row.endpoint].row.ip != row.ip && |EndpointsOfIp(m, row.ip)| == ENDPOINTS_PER_IP
  {
    var before, after := EndpointsOfIp(m, row.ip), EndpointsOfIp(Upserted(m, row, topics), row.ip);
    assert after == before + {row.endpoint};
    if row.endpoint in before { assert after == before; }
  }

  /** The rows of the endpoints in order are those of exactly the endpoints registered for the topic. */
  lemma AnswersEveryone(m: Registry, topic: string, rows: seq<Row>)
    requires |rows| == |EndpointsFor(m, topic)|
    requires forall k :: 0 <= k < |rows| ==>
      rows[k].endpoint == Sort(EndpointsFor(m, topic))[k] && rows[k].endpoint in m
        && rows[k] == m[rows[k].endpoint].row
    ensures forall k :: 0 <= k < |rows| ==> topic in m[rows[k].endpoint].topics
    ensures forall e :: e in m && topic in m[e].topics ==> m[e].row in rows
  {
    var endpoints := Sort(EndpointsFor(m, topic));
    forall k | 0 <= k < |rows| ensures topic in m[rows[k].endpoint].topics {
      assert endpoints[k] in endpoints;
    }
    forall e | e in m && topic in m[e].topics ensures m[e].row in rows {
      assert e in endpoints;
      var k :| 0 <= k < |endpoints| && endpoints[k] == e;
      assert rows[k] == m[e].row;
    }
  }

  function Name(k: nat): string { seq(k, _ => 'x') }

  /** What registering k new endpoints from one address leaves. */
  function Registered(row: Row, k: nat): Registry {
    if k == 0 then map[] else Upserted(Registered(row, k - 1), row.(endpoint := Name(k)), [])
  }

  lemma {:induction false} RegisteredCount(row: Row, k: nat)
    ensures |EndpointsOfIp(Registered(row, k), row.ip)| == k
    ensures forall e :: e in Registered(row, k) ==> |e| <= k
  {
    if k > 0 {
      var before := Registered(row, k - 1);
      RegisteredCount(row, k - 1);
      assert |Name(k)| == k;
      assert EndpointsOfIp(Registered(row, k), row.ip) == EndpointsOfIp(before, row.ip) + {Name(k)};
    }
  }

  /** Every address can be filled and then passed, by one more endpoint that comes from elsewhere. */
  lemma LimitPassed(row: Row, elsewhere: string) returns (m: Registry, moved: Row)
    requires elsewhere != row.ip
    ensures forall k: nat :: k < ENDPOINTS_PER_IP ==>
      UpsertAllowed(Registered(row, k), row.(endpoint := Name(k + 1)), [])
    ensures var last := row.(endpoint := Name(11), ip := elsewhere);
      UpsertAllowed(Registered(row, ENDPOINTS_PER_IP), last, [])
        && m == Upserted(Registered(row, ENDPOINTS_PER_IP), last, [])
    ensures moved.ip == row.ip && UpsertAllowed(m, moved, [])
      && |EndpointsOfIp(Upserted(m, moved, []), row.ip)| > ENDPOINTS_PER_IP
  {
    forall k: nat | k < ENDPOINTS_PER_IP ensures UpsertAllowed(Registered(row, k), row.(endpoint := Name(k + 1)), []) {
      RegisteredCount(row, k);
    }
    var full := Registered(row, ENDPOINTS_PER_IP);
    RegisteredCount(row, ENDPOINTS_PER_IP);
    var last := row.(endpoint := Name(11), ip := elsewhere);
    assert |Name(11)| == 11;
    assert forall e :: e in full ==> full[e].row.ip == row.ip by { SameAddress(row, ENDPOINTS_PER_IP); }
    assert EndpointsOfIp(full, elsewhere) == {};
    m := Upserted(full, last, []);
    assert EndpointsOfIp(m, row.ip) == EndpointsOfIp(full, row.ip);
    moved := last.(ip := row.ip);
    LimitPassedByMoving(m, moved, []);
  }

  lemma {:induction false} SameAddress(row: Row, k: nat)
    ensures forall e :: e in Registered(row, k) ==> Registered(row, k)[e].row.ip == row.ip
  {
    if k > 0 { SameAddress(row, k - 1); }
  }

  /* ---- the store ---- */

  class WebPushStore {
    var tables: Tables
    /** What the tables stand for. */
    ghost var Registrations: Registry
    /** Every id that occurs in the tables; new ids are drawn outside. */
    ghost var Used: set<string>

    ghost predicate Valid()
      reads this
    {
      && StandsFor(tables, Registrations)
      && tables.subscriptions.Keys <= Used
      && forall r :: r in tables.topics ==> r.0 in Used
    }

    constructor ()
      ensures Valid() && Registrations == map[]
    {
      tables := Tables(map[], {});
      Registrations := map[];
      Used := {};
    }

    /** The endpoint's id, or the new one if the address has room for another endpoint. */
    method SubscriptionId(row: Row, newId: string) returns (id: Option<string>)
      requires Valid() && newId !in Used
      ensures id.None? <==> row.endpoint !in Registrations && |EndpointsOfIp(Registrations, row.ip)| >= ENDPOINTS_PER_IP
      ensures id.Some? && row.endpoint in Registrations ==> Holds(tables, row.endpoint, id.value)
      ensures id.Some? && row.endpoint !in Registrations ==> id.value == newId
    {
      var subscriptionCount := |IdsOfIp(tables, row.ip)|;
      IpCount(tables, Registrations, row.ip);
      var existing := set id | id in tables.subscriptions && tables.subscriptions[id].endpoint == row.endpoint;
      if existing != {} {
        var found :| found in existing;
        return Some(found);
      }
      forall x ensures !Holds(tables, row.endpoint, x) {
        assert x !in existing;
      }
      if subscriptionCount >= ENDPOINTS_PER_IP {
        return None;
      }
      id := Some(newId);
    }

    /** Registers an endpoint for exactly the given topics, in one transaction. */
    method UpsertSubscription(row: Row, topics: seq<string>, newId: string) returns (ok: bool)
      requires Valid() && newId !in Used
      modifies this
      ensures Valid() && Used <= old(Used) + {newId}
      ensures ok <==> UpsertAllowed(old(Registrations), row, topics)
      ensures ok ==> Registrations == Upserted(old(Registrations), row, topics)
      ensures !ok ==> Registrations == old(Registrations) && tables == old(tables)
      ensures ok ==> forall i, j :: 0 <= i < j < |topics| ==> topics[i] != topics[j]
      ensures var m := old(Registrations); var others := |set e | e in m && m[e].row.ip == row.ip|;
        && (ok && row.endpoint !in m ==> others < 10)
        && (!ok && (row.endpoint in m || others < 10) ==>
              exists i, j :: 0 <= i < j < |topics| && topics[i] == topics[j])
      ensures ok ==> row.endpoint in Registrations && Registrations[row.endpoint].row == row
      ensures ok ==> forall x :: x in Registrations[row.endpoint].topics <==> x in topics
      ensures forall e :: e != row.endpoint ==> SameEntry(old(Registrations), Registrations, e)
    {
      TopicSetMembers(topics);
      assert EndpointsOfIp(Registrations, row.ip) == set e | e in Registrations && Registrations[e].row.ip == row.ip;
      var found := SubscriptionId(row, newId);
      if found.None? {
        return false;
      }
      var id := found.value;
      var rows := set r | r in tables.topics && r.0 != id;
      ok, rows := InsertTopics(rows, id, topics);
      if ok {
        PutStandsFor(tables, Registrations, id, row, TopicSet(topics));
        tables := Tables(tables.subscriptions[id := row], rows);
        Registrations := Upserted(Registrations, row, topics);
        Used := Used + {id};
      }
    }

    /** The live endpoints registered for a topic, by endpoint. */
    method SubscriptionsForTopic(topic: string) returns (rows: seq<Row>)
      requires Valid()
      ensures |rows| == |EndpointsFor(Registrations, topic)|
      ensures forall k :: 0 <= k < |rows| ==>
        rows[k].endpoint == Sort(EndpointsFor(Registrations, topic))[k] && rows[k].endpoint in Registrations
        && rows[k] == Registrations[rows[k].endpoint].row
      ensures forall k :: 0 <= k < |rows| ==> topic in Registrations[rows[k].endpoint].topics
      ensures forall e :: e in Registrations && topic in Registrations[e].topics ==> Registrations[e].row in rows
    {
      JoinGivesEndpoints(tables, Registrations, topic);
      var live := tables.subscriptions;
      var endpoints := Sort(set r | r in tables.topics && r.1 == topic && r.0 in live :: live[r.0].endpoint);
      rows := [];
      for k := 0 to |endpoints|
        invariant |rows| == k
        invariant forall j :: 0 <= j < k ==>
          rows[j].endpoint == endpoints[j] && endpoints[j] in Registrations
            && rows[j] == Registrations[endpoints[j]].row
      {
        assert endpoints[k] in endpoints;
        assert exists id :: Holds(tables, endpoints[k], id);
        var id :| id in tables.subscriptions && Holds(tables, endpoints[k], id);
        rows := rows + [tables.subscriptions[id]];
      }
      AnswersEveryone(Registrations, topic, rows);
    }

    /** Deletes rows of the subscription table; whether topic rows go with them depends on foreign keys
        being enforced on the connection at hand. */
    method DeleteRows(gone: set<string>, cascade: bool, ghost left: Registry)
      requires Valid()
      requires forall e :: e in left ==> e in Registrations && left[e] == Registrations[e]
      requires forall id :: id in tables.subscriptions ==> (id in gone <==> tables.subscriptions[id].endpoint !in left)
      modifies this
      ensures Valid() && Registrations == left && Used == old(Used)
      ensures tables.subscriptions == old(tables).subscriptions - gone
    {
      var subscriptions := tables.subscriptions - gone;
      var topics := if cascade then set r | r in tables.topics && r.0 !in gone else tables.topics;
      var next := Tables(subscriptions, topics);
      forall id | id in next.subscriptions ensures TopicsOf(next, id) == TopicsOf(tables, id) {
        forall y ensures y in TopicsOf(next, id) <==> y in TopicsOf(tables, id) {
          assert y in TopicsOf(next, id) <==> (id, y) in next.topics;
          assert y in TopicsOf(tables, id) <==> (id, y) in tables.topics;
        }
      }
      DropStandsFor(tables, Registrations, next, left);
      tables := next;
      Registrations := left;
    }

    method RemoveSubscriptionsByEndpoint(endpoint: string, cascade: bool)
      requires Valid()
      modifies this
      ensures Valid() && Used == old(Used) && Registrations == old(Registrations) - {endpoint}
      ensures forall e :: if e == endpoint then e !in Registrations else SameEntry(old(Registrations), Registrations, e)
    {
      var gone := set id | id in tables.subscriptions && tables.subscriptions[id].endpoint == endpoint;
      DeleteRows(gone, cascade, Registrations - {endpoint});
    }

    method RemoveSubscriptionsByUserID(userId: string, cascade: bool) returns (ok: bool)
      requires Valid()
      modifies this
      ensures Valid() && Used == old(Used) && (ok <==> userId != "")
      ensures Registrations == if ok then WithoutUser(old(Registrations), userId) else old(Registrations)
      ensures forall e :: if ok && e in old(Registrations) && old(Registrations)[e].row.userId == userId
        then e !in Registrations else SameEntry(old(Registrations), Registrations, e)
    {
      if userId == "" {
        return false;
      }
      var gone := set id | id in tables.subscriptions && tables.subscriptions[id].userId == userId;
      DeleteRows(gone, cascade, WithoutUser(Registrations, userId));
      ok := true;
    }

    /** Deletes what has not been updated since the cutoff, and the topic rows left without a
        subscription. */
    method RemoveExpiredSubscriptions(cutoff: int, cascade: bool)
      requires Valid()
      modifies this
      ensures Valid() && Used == old(Used) && Registrations == WithoutOlder(old(Registrations), cutoff)
      ensures forall r :: r in tables.topics ==> r.0 in tables.subscriptions
      ensures forall e :: if e in old(Registrations) && old(Registrations)[e].row.updatedAt <= cutoff
        then e !in Registrations else SameEntry(old(Registrations), Registrations, e)
    {
      var gone := set id | id in tables.subscriptions && tables.subscriptions[id].updatedAt <= cutoff;
      DeleteRows(gone, cascade, WithoutOlder(Registrations, cutoff));
      var next := Tables(tables.subscriptions, set r | r in tables.topics && r.0 in tables.subscriptions);
      forall id | id in next.subscriptions ensures TopicsOf(next, id) == TopicsOf(tables, id) {
        forall y ensures y in TopicsOf(next, id) <==> y in TopicsOf(tables, id) {
          assert y in TopicsOf(next, id) <==> (id, y) in next.topics;
          assert y in TopicsOf(tables, id) <==> (id, y) in tables.topics;
        }
      }
      DropStandsFor(tables, Registrations, next, Registrations);
      tables := next;
    }
  }

  /** Inserts one row per topic; a repeated topic violates the primary key. */
  method InsertTopics(rows: set<(string, string)>, id: string, topics: seq<string>)
      returns (ok: bool, all: set<(string, string)>)
    requires forall r :: r in rows ==> r.0 != id
    ensures ok <==> !Repeats(topics)
    ensures ok ==> all == rows + (set x | x in TopicSet(topics) :: (id, x))
  {
    all := rows;
    for k := 0 to |topics|
      invariant forall i, j :: 0 <= i < j < k ==> topics[i] != topics[j]
      invariant all == rows + (set x | x in TopicSet(topics[..k]) :: (id, x))
    {
      if (id, topics[k]) in all {
        assert topics[k] in TopicSet(topics[..k]);
        var i :| 0 <= i < k && topics[..k][i] == topics[k];
        return false, all;
      }
      assert forall i :: 0 <= i < k ==> topics[..k][i] == topics[i] && topics[i] in TopicSet(topics[..k]);
      TopicSetSnoc(topics, k);
      all := all + {(id, topics[k])};
    }
    assert topics[..|topics|] == topics;
    ok := true;
  }

  lemma TopicSetSnoc(topics: seq<string>, k: nat)
    requires k < |topics|
    ensures TopicSet(topics[..k + 1]) == TopicSet(topics[..k]) + {topics[k]}
  {
    forall x ensures x in TopicSet(topics[..k + 1]) <==> x in TopicSet(topics[..k]) || x == topics[k] {
      if x in TopicSet(topics[..k]) {
        var j :| 0 <= j < k && topics[..k][j] == x;
        assert topics[..k + 1][j] == x;
      }
      assert topics[..k + 1][k] == topics[k];
      if x in TopicSet(topics[..k + 1]) {
        var j :| 0 <= j < k + 1 && topics[..k + 1][j] == x;
        if j < k { assert topics[..k][j] == x; }
      }
    }
  }
}
