/**
 * The administrator's handlers that decide something: the preview stream, which serves any
 * video without consulting access rules, and the user and access-rule table operations. The
 * user and rule collections are an object whose methods change them in place, as the handlers
 * change the store.
 */
module AdminController {
  import opened Wrappers
  import opened Text
  import opened Models
  import opened Access
  import opened Streaming

  // ---------------------------------------------------------------------------
  // Preview stream

  /** `getAdminStream` over the video collection by id and the uploads directory. */
  function AdminStream(videos: map<Id, Video>, files: map<string, seq<byte>>, id: Id, range: Option<string>): (r: Response)
    requires id in videos ==> RangeFitsVideo(videos[id], files, range)
    ensures id !in videos ==> r == Message(404, "Video not found")
    ensures id in videos && IsRemote(videos[id]) ==> r == Redirect(videos[id].videoUrl.value)
    ensures id in videos && !IsRemote(videos[id]) && StorageKey(videos[id]) !in files ==>
      r == Message(404, "File not found")
    ensures id in videos && !IsRemote(videos[id]) && StorageKey(videos[id]) in files ==>
      r == ServeFile(files[StorageKey(videos[id])], range)
  {
    if id !in videos then Message(404, "Video not found")
    else ServeVideo(videos[id], files, range, "File not found")
  }

  /**
   * Wherever a file or a redirect is served, the preview answers exactly what the user stream
   * answers a user whose rules grant the video: the two differ only in the missing-file message.
   */
  lemma AdminStreamAgreesWithGrantedStream(
    videos: map<Id, Video>, files: map<string, seq<byte>>, id: Id, range: Option<string>)
    requires id in videos && RangeFitsVideo(videos[id], files, range)
    requires IsRemote(videos[id]) || StorageKey(videos[id]) in files
    ensures AdminStream(videos, files, id, range) ==
      ServeVideo(videos[id], files, range, "Video file not found on server")
  {
  }

  // ---------------------------------------------------------------------------
  // The access-rule table

  /** Every rule has its own id, as every stored document does. */
  predicate UniqueIds(rules: seq<AccessRule>)
  {
    forall i, j :: 0 <= i < j < |rules| ==> rules[i].id != rules[j].id
  }

  predicate HasRuleId(rules: seq<AccessRule>, id: Id)
  {
    exists x :: x in rules && x.id == id
  }

  /** `i` is the first position of a rule with id `id`. */
  predicate FirstWithId(rules: seq<AccessRule>, id: Id, i: int)
  {
    0 <= i < |rules| && rules[i].id == id && forall j :: 0 <= j < i ==> rules[j].id != id
  }

  lemma UniqueCons(x: AccessRule, rest: seq<AccessRule>)
    requires UniqueIds(rest) && forall y :: y in rest ==> y.id != x.id
    ensures UniqueIds([x] + rest)
  {
    var s := [x] + rest;
    forall i, j | 0 <= i < j < |s| ensures s[i].id != s[j].id {
      assert s[j] == rest[j - 1];
      if i > 0 {
        assert s[i] == rest[i - 1];
      }
    }
  }

  lemma UniqueTail(rules: seq<AccessRule>)
    requires UniqueIds(rules) && rules != []
    ensures UniqueIds(rules[1..]) && forall y :: y in rules[1..] ==> y.id != rules[0].id
  {
    forall y | y in rules[1..] ensures y.id != rules[0].id {
      var k :| 0 <= k < |rules[1..]| && rules[1..][k] == y;
      assert rules[k + 1] == y;
    }
  }

  /** `AccessRule.deleteOne({ _id: id })`: the first rule with that id, if any, is removed. */
  function WithoutRule(rules: seq<AccessRule>, id: Id): (r: seq<AccessRule>)
    ensures !HasRuleId(rules, id) ==> r == rules
    ensures multiset(r) <= multiset(rules)
    ensures UniqueIds(rules) ==> UniqueIds(r)
  {
    if rules == [] then []
    else if rules[0].id == id then
      assert rules == [rules[0]] + rules[1..];
      assert UniqueIds(rules) ==> UniqueIds(rules[1..]) by {
        if UniqueIds(rules) { UniqueTail(rules); }
      }
      rules[1..]
    else
      var rest := WithoutRule(rules[1..], id);
      assert rules == [rules[0]] + rules[1..];
      assert !HasRuleId(rules, id) ==> !HasRuleId(rules[1..], id);
      assert UniqueIds(rules) ==> UniqueIds([rules[0]] + rest) by {
        if UniqueIds(rules) {
          UniqueTail(rules);
          forall y | y in rest ensures y.id != rules[0].id {
            assert y in multiset(rest);
          }
          UniqueCons(rules[0], rest);
        }
      }
      [rules[0]] + rest
  }

  /** Deleting a stored id takes out the first rule carrying it and keeps the rest in order. */
  lemma {:induction false} WithoutRuleRemovesFirst(rules: seq<AccessRule>, id: Id) returns (i: int)
    requires HasRuleId(rules, id)
    ensures FirstWithId(rules, id, i) && WithoutRule(rules, id) == rules[..i] + rules[i + 1..]
  {
    var tail := rules[1..];
    assert rules == [rules[0]] + tail;
    if rules[0].id == id {
      i := 0;
      assert rules[..0] + rules[1..] == tail;
    } else {
      var x :| x in rules && x.id == id;
      assert x in tail;
      var k := WithoutRuleRemovesFirst(tail, id);
      FirstWithIdCons(rules, id, k);
      SpliceCons(rules, k);
      i := k + 1;
    }
  }

  lemma FirstWithIdCons(rules: seq<AccessRule>, id: Id, k: int)
    requires rules != [] && rules[0].id != id && FirstWithId(rules[1..], id, k)
    ensures FirstWithId(rules, id, k + 1)
  {
    forall j | 0 <= j < k + 1 ensures rules[j].id != id {
      if j > 0 {
        assert rules[j] == rules[1..][j - 1];
      }
    }
  }

  lemma SpliceCons(rules: seq<AccessRule>, k: int)
    requires 0 <= k < |rules| - 1
    ensures [rules[0]] + (rules[1..][..k] + rules[1..][k + 1..]) == rules[..k + 1] + rules[k + 2..]
  {
  }

  /** With unique ids, a splice at one position loses exactly the rules carrying that position's id. */
  lemma SpliceMembers(rules: seq<AccessRule>, i: int)
    requires UniqueIds(rules) && 0 <= i < |rules|
    ensures forall x :: x in rules[..i] + rules[i + 1..] <==> x in rules && x.id != rules[i].id
  {
    var r := rules[..i] + rules[i + 1..];
    forall x ensures x in r <==> x in rules && x.id != rules[i].id {
      if x in r {
        var k :| 0 <= k < |r| && r[k] == x;
        if k < i {
          assert rules[k] == x;
        } else {
          assert rules[k + 1] == x;
        }
      }
      if x in rules && x.id != rules[i].id {
        var k :| 0 <= k < |rules| && rules[k] == x;
        if k < i {
          assert r[k] == x;
        } else {
          assert r[k - 1] == x;
        }
      }
    }
  }

  /** With unique ids, exactly the rule with the given id disappears and every other stays. */
  lemma DeleteRuleRemovesOnlyThatRule(rules: seq<AccessRule>, id: Id)
    requires UniqueIds(rules)
    ensures forall x :: x in WithoutRule(rules, id) <==> x in rules && x.id != id
  {
    if HasRuleId(rules, id) {
      var i := WithoutRuleRemovesFirst(rules, id);
      SpliceMembers(rules, i);
    }
  }

  /** Removing a rule leaves every other user's active rules exactly as they were. */
  lemma {:induction false} DeleteRuleKeepsOtherUsersRules(
    rules: seq<AccessRule>, id: Id, other: Id, now: Timestamp)
    requires forall x :: x in rules && x.id == id ==> x.user != other
    ensures ActiveRules(WithoutRule(rules, id), other, now) == ActiveRules(rules, other, now)
  {
    if rules != [] {
      assert rules == [rules[0]] + rules[1..];
      if rules[0].id == id {
        assert rules[0].user != other;
      } else {
        DeleteRuleKeepsOtherUsersRules(rules[1..], id, other, now);
        ActiveRulesAppend([rules[0]], WithoutRule(rules[1..], id), other, now);
        ActiveRulesAppend([rules[0]], rules[1..], other, now);
      }
    }
  }

  /** `AccessRule.deleteMany({ user })`: the rules of every other user, in table order. */
  function RulesNotOf(rules: seq<AccessRule>, user: Id): (r: seq<AccessRule>)
    ensures forall x :: x in r <==> x in rules && x.user != user
    ensures UniqueIds(rules) ==> UniqueIds(r)
  {
    if rules == [] then []
    else
      var rest := RulesNotOf(rules[1..], user);
      assert rules == [rules[0]] + rules[1..];
      if rules[0].user == user then
        assert UniqueIds(rules) ==> UniqueIds(rules[1..]) by {
          if UniqueIds(rules) { UniqueTail(rules); }
        }
        rest
      else
        assert UniqueIds(rules) ==> UniqueIds([rules[0]] + rest) by {
          if UniqueIds(rules) {
            UniqueTail(rules);
            UniqueCons(rules[0], rest);
          }
        }
        [rules[0]] + rest
  }

  /** After the cascade the deleted user has no active rule left, whatever the time. */
  lemma {:induction false} DeleteUserRevokesAccess(rules: seq<AccessRule>, user: Id, now: Timestamp, video: Video)
    ensures ActiveRules(RulesNotOf(rules, user), user, now) == []
    ensures !HasAccess(ActiveRules(RulesNotOf(rules, user), user, now), video)
  {
    if rules != [] {
      DeleteUserRevokesAccess(rules[1..], user, now, video);
    }
  }

  /** The cascade leaves every other user's active rules, and so their access, untouched. */
  lemma {:induction false} DeleteUserKeepsOthersRules(rules: seq<AccessRule>, user: Id, other: Id, now: Timestamp)
    requires other != user
    ensures ActiveRules(RulesNotOf(rules, user), other, now) == ActiveRules(rules, other, now)
  {
    if rules != [] {
      DeleteUserKeepsOthersRules(rules[1..], user, other, now);
    }
  }

  /**
   * The rule `createAccessRule` stores: the supplied user and scope fields as given, the
   * expiry `durationDays` whole days after `now`, and `isPermanent` left at its default.
   */
  function RuleFromRequest(
    id: Id, userId: Id, domain: Option<Id>, topic: Option<Id>,
    year: Option<int>, month: Option<int>, day: Option<int>, durationDays: int, now: Timestamp): AccessRule
  {
    AccessRule(id, userId, domain, topic, year, month, day, now + durationDays * MillisPerDay, false)
  }

  /** A created rule is active right after creation exactly when its duration is positive. */
  lemma CreatedRuleActiveIff(
    rules: seq<AccessRule>, id: Id, userId: Id, domain: Option<Id>, topic: Option<Id>,
    year: Option<int>, month: Option<int>, day: Option<int>, durationDays: int, now: Timestamp)
    ensures var rule := RuleFromRequest(id, userId, domain, topic, year, month, day, durationDays, now);
      rule in ActiveRules(rules + [rule], userId, now) <==> durationDays > 0
  {
    var rule := RuleFromRequest(id, userId, domain, topic, year, month, day, durationDays, now);
    assert rule in rules + [rule];
    if durationDays <= 0 {
      assert durationDays * MillisPerDay <= 0;
    }
  }

  /** Until it expires, a created rule grants its user every video it matches. */
  lemma CreatedRuleGrantsAccess(rules: seq<AccessRule>, rule: AccessRule, video: Video, now: Timestamp)
    requires rule.expiresAt > now && Matches(rule, video)
    ensures HasAccess(ActiveRules(rules + [rule], rule.user, now), video)
  {
    ActiveRulesAppend(rules, [rule], rule.user, now);
    var active := ActiveRules(rules + [rule], rule.user, now);
    assert ActiveRules([rule], rule.user, now) == [rule];
    assert active[|active| - 1] == rule;
    HasAccessIff(active, video);
  }

  /** Adding a rule never takes access away from anyone. */
  lemma CreatingRuleKeepsGrants(rules: seq<AccessRule>, rule: AccessRule, user: Id, video: Video, now: Timestamp)
    requires HasAccess(ActiveRules(rules, user, now), video)
    ensures HasAccess(ActiveRules(rules + [rule], user, now), video)
  {
    ActiveRulesAppend(rules, [rule], user, now);
    var before := ActiveRules(rules, user, now);
    var after := ActiveRules(rules + [rule], user, now);
    HasAccessIff(before, video);
    HasAccessIff(after, video);
    var i :| 0 <= i < |before| && Matches(before[i], video);
    assert after[i] == before[i];
  }

  /** Deleting a rule just created, by its fresh id, restores the table. */
  lemma {:induction false} DeleteUndoesCreate(rules: seq<AccessRule>, rule: AccessRule)
    requires forall x :: x in rules ==> x.id != rule.id
    ensures WithoutRule(rules + [rule], rule.id) == rules
  {
    var all := rules + [rule];
    if rules == [] {
      assert all == [rule];
    } else {
      assert all[0] == rules[0] && all[0].id != rule.id;
      assert all[1..] == rules[1..] + [rule];
      assert WithoutRule(all, rule.id) == [rules[0]] + WithoutRule(rules[1..] + [rule], rule.id);
      DeleteUndoesCreate(rules[1..], rule);
      assert rules == [rules[0]] + rules[1..];
    }
  }

  // ---------------------------------------------------------------------------
  // User status

  /** `status || user.status` */
  function UpdatedStatus(current: string, supplied: Option<string>): (s: string)
    ensures !Falsy(supplied) ==> s == supplied.value
    ensures Falsy(supplied) ==> s == current
  {
    if Falsy(supplied) then current else supplied.value
  }

  /** Sending the same update twice leaves the status where the first one put it. */
  lemma UpdateStatusIdempotent(current: string, supplied: Option<string>)
    ensures UpdatedStatus(UpdatedStatus(current, supplied), supplied) == UpdatedStatus(current, supplied)
  {
  }

  // ---------------------------------------------------------------------------
  // The store

  /** The user collection by id and the access-rule collection, as the admin handlers change them. */
  class AdminStore {
    var users: map<Id, User>
    var rules: seq<AccessRule>

    ghost predicate Valid()
      reads this
    {
      (forall id :: id in users ==> users[id].id == id) && UniqueIds(rules)
    }

    constructor (users0: map<Id, User>, rules0: seq<AccessRule>)
      requires forall id :: id in users0 ==> users0[id].id == id
      requires UniqueIds(rules0)
      ensures Valid() && users == users0 && rules == rules0
    {
      users := users0;
      rules := rules0;
    }

    /** `createAccessRule`; the store hands out `freshId`. The referenced user is not checked. */
    method CreateAccessRule(
      freshId: Id, userId: Id, domain: Option<Id>, topic: Option<Id>,
      year: Option<int>, month: Option<int>, day: Option<int>, durationDays: int, now: Timestamp)
      returns (resp: Response)
      requires Valid()
      requires forall x :: x in rules ==> x.id != freshId
      modifies this
      ensures Valid()
      ensures rules == old(rules) + [RuleFromRequest(freshId, userId, domain, topic, year, month, day, durationDays, now)]
      ensures users == old(users)
      ensures resp == RuleBody(201, RuleFromRequest(freshId, userId, domain, topic, year, month, day, durationDays, now))
    {
      var rule := RuleFromRequest(freshId, userId, domain, topic, year, month, day, durationDays, now);
      UniqueCons(rule, []);
      forall i, j | 0 <= i < j < |rules + [rule]| ensures (rules + [rule])[i].id != (rules + [rule])[j].id {
        if j == |rules| {
          assert (rules + [rule])[i] in rules;
        }
      }
      rules := rules + [rule];
      resp := RuleBody(201, rule);
    }

    /** `deleteAccessRule`: answers the same whether or not a rule had that id. */
    method DeleteAccessRule(id: Id) returns (resp: Response)
      requires Valid()
      modifies this
      ensures Valid()
      ensures rules == WithoutRule(old(rules), id)
      ensures forall x :: x in rules <==> x in old(rules) && x.id != id
      ensures users == old(users)
      ensures resp == Message(200, "Access rule removed")
    {
      DeleteRuleRemovesOnlyThatRule(rules, id);
      rules := WithoutRule(rules, id);
      resp := Message(200, "Access rule removed");
    }

    /**
     * `deleteUser`: the user and, only when the user exists, all of their rules. `emailSent` is
     * whether the notification mail goes out; when it does not, `sendEmail` rethrows and the
     * handler rejects after the deletions have been made.
     */
    method DeleteUser(id: Id, emailSent: bool) returns (resp: Response)
      requires Valid()
      modifies this
      ensures Valid()
      ensures id in old(users) ==>
        users == old(users) - {id} && rules == RulesNotOf(old(rules), id) &&
        resp == (if emailSent then Message(200, "User removed") else Thrown)
      ensures id !in old(users) ==>
        users == old(users) && rules == old(rules) && resp == Message(404, "User not found")
    {
      if id !in users {
        return Message(404, "User not found");
      }
      users := users - {id};
      rules := RulesNotOf(rules, id);
      resp := if emailSent then Message(200, "User removed") else Thrown;
    }

    /**
     * `updateUser`: the status is replaced only by a truthy value. When the notification mail
     * fails (`emailSent` false) the saved status stands and the handler rejects.
     */
    method UpdateUser(id: Id, status: Option<string>, emailSent: bool) returns (resp: Response)
      requires Valid()
      modifies this
      ensures Valid()
      ensures rules == old(rules)
      ensures id in old(users) ==>
        users == old(users)[id := old(users)[id].(status := UpdatedStatus(old(users)[id].status, status))] &&
        resp == (if emailSent then UserBody(users[id]) else Thrown)
      ensures id !in old(users) ==> users == old(users) && resp == Message(404, "User not found")
    {
      if id !in users {
        return Message(404, "User not found");
      }
      var user := users[id].(status := UpdatedStatus(users[id].status, status));
      users := users[id := user];
      resp := if emailSent then UserBody(user) else Thrown;
    }
  }
}
