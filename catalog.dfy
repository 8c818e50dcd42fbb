/**
 * The content listing a user may browse: the videos matched by the OR of the conditions built
 * from the user's active rules, newest first, with the domains and topics those videos refer to.
 */
module Catalog {
  import opened Wrappers
  import opened Models
  import opened Access

  datatype CatalogView = CatalogView(domains: seq<Domain>, topics: seq<Topic>, videos: seq<Video>)

  /** A returned video whose domain or topic document does not exist: `v.domain._id` throws. */
  datatype CatalogError = DanglingReference

  // ---------------------------------------------------------------------------
  // The two ways of selecting videos

  /** The per-video decision of the stream path applied to every stored video, in store order. */
  function AccessibleVideos(store: seq<Video>, rules: seq<AccessRule>): (r: seq<Video>)
    ensures forall v :: v in r <==> v in store && HasAccess(rules, v)
    ensures multiset(r) <= multiset(store)
  {
    if store == [] then []
    else
      var rest := AccessibleVideos(store[1..], rules);
      assert store == [store[0]] + store[1..];
      if HasAccess(rules, store[0]) then [store[0]] + rest else rest
  }

  /** `Video.find({ $or: conds })` before sorting: the stored videos that match a condition. */
  function FindVideos(store: seq<Video>, conds: seq<Condition>): (r: seq<Video>)
    ensures forall v :: v in r <==> v in store && SatisfiesAny(conds, v)
  {
    if store == [] then []
    else
      var rest := FindVideos(store[1..], conds);
      assert store == [store[0]] + store[1..];
      if SatisfiesAny(conds, store[0]) then [store[0]] + rest else rest
  }

  /** The bulk query over the built conditions selects exactly what the per-video predicate grants. */
  lemma {:induction false} FindAgreesWithAccess(store: seq<Video>, conds: seq<Condition>, rules: seq<AccessRule>)
    requires forall v :: SatisfiesAny(conds, v) <==> HasAccess(rules, v)
    ensures FindVideos(store, conds) == AccessibleVideos(store, rules)
  {
    if store != [] {
      FindAgreesWithAccess(store[1..], conds, rules);
    }
  }

  /** Without active rules nothing is accessible. */
  lemma {:induction false} NothingAccessibleWithoutRules(store: seq<Video>)
    ensures AccessibleVideos(store, []) == []
  {
    if store != [] {
      NothingAccessibleWithoutRules(store[1..]);
    }
  }

  // ---------------------------------------------------------------------------
  // `.sort('-createdAt')`

  predicate NewestFirst(vs: seq<Video>)
  {
    forall i, j :: 0 <= i < j < |vs| ==> vs[i].createdAt >= vs[j].createdAt
  }

  function InsertNewestFirst(v: Video, vs: seq<Video>): (r: seq<Video>)
    requires NewestFirst(vs)
    ensures NewestFirst(r)
    ensures multiset(r) == multiset(vs) + multiset{v}
    ensures |r| == |vs| + 1
    ensures r != [] && (r[0] == v || (vs != [] && r[0] == vs[0]))
  {
    if vs == [] || v.createdAt >= vs[0].createdAt then
      [v] + vs
    else
      var rest := InsertNewestFirst(v, vs[1..]);
      assert vs == [vs[0]] + vs[1..];
      [vs[0]] + rest
  }

  /** The store's order on `createdAt`, descending; ties keep no particular order. */
  function SortNewestFirst(vs: seq<Video>): (r: seq<Video>)
    ensures NewestFirst(r)
    ensures multiset(r) == multiset(vs)
  {
    if vs == [] then []
    else
      assert vs == [vs[0]] + vs[1..];
      InsertNewestFirst(vs[0], SortNewestFirst(vs[1..]))
  }

  // ---------------------------------------------------------------------------
  // The hierarchy derived from the returned videos

  predicate ReferencesDomain(videos: seq<Video>, id: Id)
  {
    exists v :: v in videos && v.domain == id
  }

  predicate ReferencesTopic(videos: seq<Video>, id: Id)
  {
    exists v :: v in videos && v.topic == id
  }

  /** `Domain.find({ _id: { $in: videos.map(v => v.domain._id) } })`, in store order. */
  function DomainsOf(store: seq<Domain>, videos: seq<Video>): (r: seq<Domain>)
    ensures forall d :: d in r <==> d in store && ReferencesDomain(videos, d.id)
  {
    if store == [] then []
    else
      var rest := DomainsOf(store[1..], videos);
      assert store == [store[0]] + store[1..];
      if ReferencesDomain(videos, store[0].id) then [store[0]] + rest else rest
  }

  /** `Topic.find({ _id: { $in: videos.map(v => v.topic._id) } })`, in store order. */
  function TopicsOf(store: seq<Topic>, videos: seq<Video>): (r: seq<Topic>)
    ensures forall t :: t in r <==> t in store && ReferencesTopic(videos, t.id)
  {
    if store == [] then []
    else
      var rest := TopicsOf(store[1..], videos);
      assert store == [store[0]] + store[1..];
      if ReferencesTopic(videos, store[0].id) then [store[0]] + rest else rest
  }

  /** `populate('domain topic')` finds both documents a video refers to. */
  predicate Populated(v: Video, domains: seq<Domain>, topics: seq<Topic>)
  {
    (exists d :: d in domains && d.id == v.domain) && (exists t :: t in topics && t.id == v.topic)
  }

  // ---------------------------------------------------------------------------
  // The handler

  /** `getAccessibleContent` for `user` at time `now`, over the rule table and the three collections. */
  method GetAccessibleContent(
    table: seq<AccessRule>, user: Id, now: Timestamp,
    videoStore: seq<Video>, domainStore: seq<Domain>, topicStore: seq<Topic>)
    returns (r: Result<CatalogView, CatalogError>)
    ensures ActiveRules(table, user, now) == [] ==> r == Success(CatalogView([], [], []))
    ensures r.Failure? <==>
      exists v :: v in AccessibleVideos(videoStore, ActiveRules(table, user, now)) &&
        !Populated(v, domainStore, topicStore)
    ensures r.Success? ==>
      multiset(r.value.videos) == multiset(AccessibleVideos(videoStore, ActiveRules(table, user, now))) &&
      NewestFirst(r.value.videos)
    ensures r.Success? ==> forall d :: d in r.value.domains <==>
      d in domainStore && exists v :: v in r.value.videos && v.domain == d.id
    ensures r.Success? ==> forall t :: t in r.value.topics <==>
      t in topicStore && exists v :: v in r.value.videos && v.topic == t.id
  {
    var rules := ActiveRules(table, user, now);
    if |rules| == 0 {
      NothingAccessibleWithoutRules(videoStore);
      return Success(CatalogView([], [], []));
    }
    var conds := BuildOrConditions(rules);
    FindAgreesWithAccess(videoStore, conds, rules);
    var videos := SortNewestFirst(FindVideos(videoStore, conds));
    assert forall v :: v in videos <==> v in AccessibleVideos(videoStore, rules) by {
      forall v ensures v in videos <==> v in AccessibleVideos(videoStore, rules) {
        assert v in videos <==> v in multiset(videos);
      }
    }
    if exists v :: v in videos && !Populated(v, domainStore, topicStore) {
      return Failure(DanglingReference);
    }
    r := Success(CatalogView(DomainsOf(domainStore, videos), TopicsOf(topicStore, videos), videos));
  }
}
