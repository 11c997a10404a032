/** The list of calendars a user sees (src/utils/calendarUtils.ts,
    `getUserCalendars`): up to five calendars the user created, then the
    calendars of every organisation the user is a member of, with repeated
    calendars removed by id, keeping the first occurrence. */
module CalendarUtils {
  import opened Wrappers
  import opened Seqs
  import opened Schema

  // ---------------------------------------------------------------------------
  // the two sources
  // ---------------------------------------------------------------------------

  /** How many created calendars the first query asks for. */
  const CreatedLimit: nat := 5

  /** The first `n` elements, or all of them when there are fewer. */
  function Take<T>(xs: seq<T>, n: nat): (r: seq<T>)
    ensures |r| <= n && |r| <= |xs|
    ensures r == xs[..|r|]
    ensures |xs| <= n ==> r == xs
    ensures |r| == if |xs| <= n then |xs| else n
  {
    if |xs| <= n then xs else xs[..n]
  }

  /** The calendars a user created, in table order. */
  function CreatedBy(calendars: seq<Calendar>, userId: string): (r: seq<Calendar>)
    ensures forall i :: 0 <= i < |r| ==> r[i].createdBy == userId && r[i] in calendars
    ensures forall c :: c in calendars && c.createdBy == userId ==> c in r
    ensures Subsequence(r, calendars)
  {
    if |calendars| == 0 then []
    else
      var rest := CreatedBy(calendars[1..], userId);
      if calendars[0].createdBy == userId then
        assert ([calendars[0]] + rest)[1..] == rest;
        [calendars[0]] + rest
      else
        SubsequenceOfTail(rest, calendars);
        rest
  }

  /** The calendars of one organisation, in table order (the `calendars (*)`
      embedded in each membership's organisation). */
  function CalendarsOfOrg(calendars: seq<Calendar>, orgId: string): (r: seq<Calendar>)
    ensures forall i :: 0 <= i < |r| ==> r[i].orgId == orgId && r[i] in calendars
    ensures forall c :: c in calendars && c.orgId == orgId ==> c in r
  {
    if |calendars| == 0 then []
    else (if calendars[0].orgId == orgId then [calendars[0]] else []) + CalendarsOfOrg(calendars[1..], orgId)
  }

  /** The calendars of each membership's organisation, one organisation after
      the other, in membership order. */
  function MembershipCalendars(calendars: seq<Calendar>, orgIds: seq<string>): (r: seq<Calendar>)
    ensures forall i :: 0 <= i < |r| ==> r[i] in calendars && r[i].orgId in orgIds
    ensures forall c, o :: c in calendars && o in orgIds && c.orgId == o ==> c in r
  {
    if |orgIds| == 0 then []
    else
      var rest := MembershipCalendars(calendars, orgIds[1..]);
      var mine := CalendarsOfOrg(calendars, orgIds[0]);
      assert forall i :: 0 <= i < |rest| ==> (mine + rest)[|mine| + i] == rest[i];
      forall c, o | c in calendars && o in orgIds && c.orgId == o ensures c in mine + rest {
        if o != orgIds[0] {
          assert o in orgIds[1..];
        }
      }
      mine + rest
  }

  /** What the backend answers `getUserCalendars`' queries: whether the
      created-by query reports an error (or no data), the profile id of the
      user if one is found, the organisations of that profile's memberships
      (`None` when the membership query returns no data), and whether an
      exception escapes to the `catch`. */
  datatype Answers = Answers(
    createdFails: bool,
    profileId: Option<string>,
    membershipOrgs: Option<seq<string>>,
    throws: bool)

  /** The first source: up to five calendars the user created, or none when
      the query fails. */
  function CreatedPart(calendars: seq<Calendar>, userId: string, answers: Answers): (r: seq<Calendar>)
    ensures |r| <= CreatedLimit && |r| <= |CreatedBy(calendars, userId)|
    ensures answers.createdFails ==> r == []
    ensures !answers.createdFails ==> r == CreatedBy(calendars, userId)[..|r|]
    ensures !answers.createdFails && |CreatedBy(calendars, userId)| <= CreatedLimit
            ==> r == CreatedBy(calendars, userId)
    ensures !answers.createdFails ==>
              |r| == if |CreatedBy(calendars, userId)| <= CreatedLimit
                     then |CreatedBy(calendars, userId)| else CreatedLimit
    ensures forall i :: 0 <= i < |r| ==> r[i].createdBy == userId && r[i] in calendars
  {
    if answers.createdFails then []
    else
      var r := Take(CreatedBy(calendars, userId), CreatedLimit);
      assert forall i :: 0 <= i < |r| ==> r[i] in CreatedBy(calendars, userId);
      r
  }

  /** The second source: the calendars of the user's organisations, or none
      when no profile or no memberships are found. */
  function MemberPart(calendars: seq<Calendar>, answers: Answers): (r: seq<Calendar>)
    ensures answers.profileId.None? || answers.membershipOrgs.None? ==> r == []
    ensures answers.profileId.Some? && answers.membershipOrgs.Some? ==>
              forall i :: 0 <= i < |r| ==> r[i] in calendars && r[i].orgId in answers.membershipOrgs.value
    ensures answers.profileId.Some? && answers.membershipOrgs.Some? ==>
              forall c :: c in calendars && c.orgId in answers.membershipOrgs.value ==> c in r
    ensures forall i :: 0 <= i < |r| ==> r[i] in calendars
  {
    if answers.profileId.Some? && answers.membershipOrgs.Some?
    then MembershipCalendars(calendars, answers.membershipOrgs.value) else []
  }

  /** The list before de-duplication: the created calendars ahead of the
      membership calendars. */
  function Combined(calendars: seq<Calendar>, userId: string, answers: Answers): (r: seq<Calendar>)
    ensures var created := CreatedPart(calendars, userId, answers);
            && |created| <= |r| && r[..|created|] == created
            && r[|created|..] == MemberPart(calendars, answers)
    ensures forall i :: 0 <= i < |r| ==> r[i] in calendars
  {
    CreatedPart(calendars, userId, answers) + MemberPart(calendars, answers)
  }

  // ---------------------------------------------------------------------------
  // de-duplication by id
  // ---------------------------------------------------------------------------

  /** No two calendars share an id. */
  predicate DistinctIds(cs: seq<Calendar>) {
    forall i, j :: 0 <= i < j < |cs| ==> cs[i].id != cs[j].id
  }

  /** `self.findIndex(c => c.id === id)`: the position of the first calendar
      with that id, or -1 when there is none. */
  function FindIndexById(cs: seq<Calendar>, id: string): (r: int)
    ensures -1 <= r < |cs|
    ensures r == -1 <==> forall i :: 0 <= i < |cs| ==> cs[i].id != id
    ensures r >= 0 ==> cs[r].id == id && forall j :: 0 <= j < r ==> cs[j].id != id
  {
    if |cs| == 0 then -1
    else if cs[0].id == id then 0
    else
      var k := FindIndexById(cs[1..], id);
      if k == -1 then -1 else k + 1
  }

  /** The filter from position `i` on: a calendar is kept when it is the first
      one with its id. */
  function KeepFirstFrom(cs: seq<Calendar>, i: nat): seq<Calendar>
    requires i <= |cs|
    decreases |cs| - i
  {
    if i == |cs| then []
    else (if FindIndexById(cs, cs[i].id) == i then [cs[i]] else []) + KeepFirstFrom(cs, i + 1)
  }

  /** Every calendar of `r` first occurs in `cs` at position `i` or later, and
      those first positions strictly increase along `r`. */
  predicate FirstIndexesFrom(cs: seq<Calendar>, r: seq<Calendar>, i: nat) {
    && (forall k :: 0 <= k < |r| ==> i <= FindIndexById(cs, r[k].id))
    && (forall k, l :: 0 <= k < l < |r| ==> FindIndexById(cs, r[k].id) < FindIndexById(cs, r[l].id))
  }

  /** The filter keeps first calendars in the order of their positions. */
  lemma {:induction false} KeepFirstFromOrdered(cs: seq<Calendar>, i: nat)
    requires i <= |cs|
    ensures FirstIndexesFrom(cs, KeepFirstFrom(cs, i), i)
    decreases |cs| - i
  {
    if i < |cs| {
      KeepFirstFromOrdered(cs, i + 1);
      var rest := KeepFirstFrom(cs, i + 1);
      if FindIndexById(cs, cs[i].id) == i {
        assert KeepFirstFrom(cs, i) == [cs[i]] + rest;
        FirstIndexesCons(cs, i, rest);
      } else {
        EmptyConcat(rest);
        assert KeepFirstFrom(cs, i) == rest;
        FirstIndexesWeaken(cs, rest, i);
      }
    }
  }

  lemma FirstIndexesWeaken(cs: seq<Calendar>, r: seq<Calendar>, i: nat)
    requires FirstIndexesFrom(cs, r, i + 1)
    ensures FirstIndexesFrom(cs, r, i)
  {
  }

  lemma FirstIndexesCons(cs: seq<Calendar>, i: nat, rest: seq<Calendar>)
    requires i < |cs| && FindIndexById(cs, cs[i].id) == i
    requires FirstIndexesFrom(cs, rest, i + 1)
    ensures FirstIndexesFrom(cs, [cs[i]] + rest, i)
  {
    var r := [cs[i]] + rest;
    ConsParts(cs[i], rest);
    forall k | 0 <= k < |r| ensures i <= FindIndexById(cs, r[k].id) {
      if k > 0 {
        assert r[k] == rest[k - 1];
      }
    }
    forall k, l | 0 <= k < l < |r| ensures FindIndexById(cs, r[k].id) < FindIndexById(cs, r[l].id) {
      assert r[l] == rest[l - 1];
      if k > 0 {
        assert r[k] == rest[k - 1];
      }
    }
  }

  /** The ids of a list of calendars. */
  function Ids(cs: seq<Calendar>): set<string> {
    set c | c in cs :: c.id
  }

  /** A reference definition of the same de-duplication: walk the list once,
      remembering the ids already taken, and skip a calendar whose id was
      taken. */
  function DedupSeen(cs: seq<Calendar>, seen: set<string>): (r: seq<Calendar>)
    ensures forall k :: 0 <= k < |r| ==> r[k].id !in seen && r[k] in cs
    ensures DistinctIds(r)
  {
    if |cs| == 0 then []
    else if cs[0].id in seen then DedupSeen(cs[1..], seen)
    else
      var rest := DedupSeen(cs[1..], seen + {cs[0].id});
      var r := [cs[0]] + rest;
      assert forall k :: 1 <= k < |r| ==> r[k] == rest[k - 1];
      r
  }

  /** The filter keeps position `i` exactly when no earlier calendar has its id. */
  lemma FirstIndexIffUnseen(cs: seq<Calendar>, i: nat)
    requires i < |cs|
    ensures FindIndexById(cs, cs[i].id) == i <==> cs[i].id !in Ids(cs[..i])
  {
    var id := cs[i].id;
    if id in Ids(cs[..i]) {
      var c :| c in cs[..i] && c.id == id;
      var j :| 0 <= j < i && cs[..i][j] == c;
      assert cs[j].id == id;
    } else {
      forall j | 0 <= j < i ensures cs[j].id != id {
        assert cs[j] in cs[..i];
      }
    }
  }

  lemma IdsSnoc(cs: seq<Calendar>, i: nat)
    requires i < |cs|
    ensures Ids(cs[..i + 1]) == Ids(cs[..i]) + {cs[i].id}
  {
    assert cs[..i + 1] == cs[..i] + [cs[i]];
  }

  /** The index filter and the walk with remembered ids are the same function:
      from position `i` on, the filter keeps exactly what the walk keeps when
      it remembers the ids before `i`. */
  lemma {:induction false} KeepFirstFromIsDedupSeen(cs: seq<Calendar>, i: nat)
    requires i <= |cs|
    ensures KeepFirstFrom(cs, i) == DedupSeen(cs[i..], Ids(cs[..i]))
    decreases |cs| - i
  {
    if i < |cs| {
      var id, seen := cs[i].id, Ids(cs[..i]);
      KeepFirstFromIsDedupSeen(cs, i + 1);
      FirstIndexIffUnseen(cs, i);
      IdsSnoc(cs, i);
      DedupSeenStep(cs[i..], seen);
      assert cs[i..][0] == cs[i] && cs[i..][1..] == cs[i + 1..];
      if id in seen {
        assert seen + {id} == seen;
        assert KeepFirstFrom(cs, i) == KeepFirstFrom(cs, i + 1);
      } else {
        assert KeepFirstFrom(cs, i) == [cs[i]] + KeepFirstFrom(cs, i + 1);
      }
    }
  }

  lemma DedupSeenStep(cs: seq<Calendar>, seen: set<string>)
    requires |cs| > 0
    ensures cs[0].id in seen ==> DedupSeen(cs, seen) == DedupSeen(cs[1..], seen)
    ensures cs[0].id !in seen ==> DedupSeen(cs, seen) == [cs[0]] + DedupSeen(cs[1..], seen + {cs[0].id})
  {
  }

  /** Every id of the list that has not been taken yet is taken by the walk, by
      the first calendar that has it. */
  lemma {:induction false} DedupSeenKeepsFirst(cs: seq<Calendar>, seen: set<string>, j: nat)
    requires j < |cs| && cs[j].id !in seen
    ensures exists k :: 0 <= k < |DedupSeen(cs, seen)| && DedupSeen(cs, seen)[k] == cs[FindIndexById(cs, cs[j].id)]
  {
    var r := DedupSeen(cs, seen);
    if cs[0].id == cs[j].id {
      assert r[0] == cs[0];
    } else if cs[0].id in seen {
      DedupSeenKeepsFirst(cs[1..], seen, j - 1);
      assert FindIndexById(cs, cs[j].id) == FindIndexById(cs[1..], cs[j].id) + 1;
    } else {
      DedupSeenKeepsFirst(cs[1..], seen + {cs[0].id}, j - 1);
      var rest := DedupSeen(cs[1..], seen + {cs[0].id});
      assert cs[1..][j - 1] == cs[j];
      var k :| 0 <= k < |rest| && rest[k] == cs[1..][FindIndexById(cs[1..], cs[j].id)];
      assert FindIndexById(cs, cs[j].id) == FindIndexById(cs[1..], cs[j].id) + 1;
      assert r == [cs[0]] + rest;
      ConsParts(cs[0], rest);
      assert r[k + 1] == rest[k];
    }
  }

  /** What the walk keeps is the first calendar with its id. */
  lemma {:induction false} DedupSeenTakesFirst(cs: seq<Calendar>, seen: set<string>, k: nat)
    requires k < |DedupSeen(cs, seen)|
    ensures var c := DedupSeen(cs, seen)[k];
            FindIndexById(cs, c.id) >= 0 && c == cs[FindIndexById(cs, c.id)]
  {
    var r := DedupSeen(cs, seen);
    if cs[0].id in seen {
      DedupSeenTakesFirst(cs[1..], seen, k);
      assert cs[0].id != r[k].id;
    } else if k > 0 {
      var rest := DedupSeen(cs[1..], seen + {cs[0].id});
      assert r[k] == rest[k - 1];
      DedupSeenTakesFirst(cs[1..], seen + {cs[0].id}, k - 1);
      assert cs[0].id != r[k].id;
    }
  }

  /** The walk keeps its calendars in list order. */
  lemma {:induction false} DedupSeenSubsequence(cs: seq<Calendar>, seen: set<string>)
    ensures Subsequence(DedupSeen(cs, seen), cs)
  {
    if |cs| > 0 {
      if cs[0].id in seen {
        DedupSeenSubsequence(cs[1..], seen);
        SubsequenceOfTail(DedupSeen(cs[1..], seen), cs);
      } else {
        DedupSeenSubsequence(cs[1..], seen + {cs[0].id});
        var r := DedupSeen(cs, seen);
        assert r[1..] == DedupSeen(cs[1..], seen + {cs[0].id});
      }
    }
  }

  /** A list with distinct ids, none of them taken, passes the walk unchanged. */
  lemma {:induction false} DedupSeenOfDistinct(cs: seq<Calendar>, seen: set<string>)
    requires DistinctIds(cs)
    requires forall k :: 0 <= k < |cs| ==> cs[k].id !in seen
    ensures DedupSeen(cs, seen) == cs
  {
    if |cs| > 0 {
      assert forall k :: 1 <= k < |cs| ==> cs[1..][k - 1] == cs[k];
      DedupSeenOfDistinct(cs[1..], seen + {cs[0].id});
      HeadTail(cs);
    }
  }

  /** `calendars.filter((calendar, index, self) => index === self.findIndex(c
      => c.id === calendar.id))`: ids become distinct; every id of the list is
      kept, by its first calendar; nothing else is kept; the kept calendars
      come in the order of their first positions. */
  function DedupById(cs: seq<Calendar>): (r: seq<Calendar>)
    ensures DistinctIds(r)
    ensures forall j :: 0 <= j < |cs| ==>
              exists k :: 0 <= k < |r| && r[k] == cs[FindIndexById(cs, cs[j].id)]
    ensures forall k :: 0 <= k < |r| ==>
              FindIndexById(cs, r[k].id) >= 0 && r[k] == cs[FindIndexById(cs, r[k].id)]
    ensures FirstIndexesFrom(cs, r, 0)
    ensures Subsequence(r, cs)
  {
    KeepFirstFromOrdered(cs, 0);
    KeepFirstFromIsDedupSeen(cs, 0);
    assert cs[0..] == cs && Ids(cs[..0]) == {};
    DedupSeenSubsequence(cs, {});
    forall j | 0 <= j < |cs|
      ensures exists k :: 0 <= k < |DedupSeen(cs, {})| && DedupSeen(cs, {})[k] == cs[FindIndexById(cs, cs[j].id)]
    {
      DedupSeenKeepsFirst(cs, {}, j);
    }
    forall k | 0 <= k < |DedupSeen(cs, {})|
      ensures FindIndexById(cs, DedupSeen(cs, {})[k].id) >= 0
      ensures DedupSeen(cs, {})[k] == cs[FindIndexById(cs, DedupSeen(cs, {})[k].id)]
    {
      DedupSeenTakesFirst(cs, {}, k);
    }
    KeepFirstFrom(cs, 0)
  }

  /** De-duplicating twice is de-duplicating once. */
  lemma DedupIdempotent(cs: seq<Calendar>)
    ensures DedupById(DedupById(cs)) == DedupById(cs)
  {
    var r := DedupById(cs);
    KeepFirstFromIsDedupSeen(r, 0);
    assert r[0..] == r && Ids(r[..0]) == {};
    DedupSeenOfDistinct(r, {});
  }

  // ---------------------------------------------------------------------------
  // getUserCalendars
  // ---------------------------------------------------------------------------

  /** `getUserCalendars(userId)`: the combined list de-duplicated by id; an
      exception gives the empty list. */
  function UserCalendars(calendars: seq<Calendar>, userId: string, answers: Answers): (r: seq<Calendar>)
    ensures answers.throws ==> r == []
    ensures DistinctIds(r)
    ensures forall k :: 0 <= k < |r| ==> r[k] in calendars
    ensures !answers.throws ==>
              && Subsequence(r, Combined(calendars, userId, answers))
              && forall c :: c in Combined(calendars, userId, answers) ==>
                   exists k :: 0 <= k < |r| && r[k].id == c.id
  {
    if answers.throws then []
    else
      var all := Combined(calendars, userId, answers);
      var r := DedupById(all);
      forall c | c in all ensures exists k :: 0 <= k < |r| && r[k].id == c.id {
        var j :| 0 <= j < |all| && all[j] == c;
        var k :| 0 <= k < |r| && r[k] == all[FindIndexById(all, all[j].id)];
        assert r[k].id == c.id;
      }
      forall k | 0 <= k < |r| ensures r[k] in calendars {
        assert r[k] == all[FindIndexById(all, r[k].id)];
      }
      r
  }

  lemma IdsCons(a: seq<Calendar>)
    requires |a| > 0
    ensures Ids(a) == {a[0].id} + Ids(a[1..])
  {
    HeadTail(a);
  }

  /** Walking `a + b` is walking `a`, then walking `b` with the ids of `a`
      remembered as well. */
  lemma {:induction false} DedupSeenAppend(a: seq<Calendar>, b: seq<Calendar>, seen: set<string>)
    ensures DedupSeen(a + b, seen) == DedupSeen(a, seen) + DedupSeen(b, seen + Ids(a))
  {
    if |a| == 0 {
      assert a + b == b;
      assert seen + Ids(a) == seen;
    } else {
      ConcatCons(a, b);
      IdsCons(a);
      DedupSeenStep(a + b, seen);
      DedupSeenStep(a, seen);
      if a[0].id in seen {
        DedupSeenAppend(a[1..], b, seen);
        assert seen + Ids(a) == seen + Ids(a[1..]);
      } else {
        var seen' := seen + {a[0].id};
        DedupSeenAppend(a[1..], b, seen');
        assert seen' + Ids(a[1..]) == seen + Ids(a);
        ConcatAssoc([a[0]], DedupSeen(a[1..], seen'), DedupSeen(b, seen + Ids(a)));
      }
    }
  }

  /** Calendars the user created come first: the result is the created
      calendars, de-duplicated, followed by those membership calendars whose id
      is not the id of a created one. */
  lemma CreatedCalendarsFirst(calendars: seq<Calendar>, userId: string, answers: Answers)
    requires !answers.throws
    ensures var created := CreatedPart(calendars, userId, answers);
            var later := DedupSeen(MemberPart(calendars, answers), Ids(created));
            && UserCalendars(calendars, userId, answers) == DedupById(created) + later
            && forall k :: 0 <= k < |later| ==> later[k].id !in Ids(created)
  {
    var created := CreatedPart(calendars, userId, answers);
    var members := MemberPart(calendars, answers);
    assert Combined(calendars, userId, answers) == created + members;
    DedupByIdIsWalk(created + members);
    DedupByIdIsWalk(created);
    DedupSeenAppend(created, members, {});
    assert {} + Ids(created) == Ids(created);
  }

  /** The filter computes the walk from an empty memory. */
  lemma DedupByIdIsWalk(cs: seq<Calendar>)
    ensures DedupById(cs) == DedupSeen(cs, {})
  {
    KeepFirstFromIsDedupSeen(cs, 0);
    assert cs[0..] == cs && Ids(cs[..0]) == {};
  }
}
