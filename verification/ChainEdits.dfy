/**
 What UpdateUser makes of a user's mirror and chain, by value: as written, for any request on any mirror and
 chain, in step or not; and what that comes to over a run.
 */
module ChainEdits {
  import opened Wrappers
  import opened Sequences
  import opened Iptables

  // The server's mirror of a user's chain, and the chain.
  datatype Twin = Twin(mirror: seq<ChainRule>, chain: seq<ChainRule>)

  ghost predicate Synced(t: Twin) {
    t.mirror == t.chain && Distinct(t.mirror)
  }

  // The positions the first loop finds stale: not requested, or not for the first time.
  function StaleIn(current: seq<ChainRule>, upTo: nat, requested: set<ChainRule>): (stale: seq<nat>)
    requires upTo <= |current|
    ensures forall i | 0 <= i < |stale| :: stale[i] < upTo
    ensures forall i, j | 0 <= i < j < |stale| :: stale[i] < stale[j]
  {
    if upTo == 0 then []
    else if current[upTo - 1] in requested && current[upTo - 1] !in current[..upTo - 1]
    then StaleIn(current, upTo - 1, requested)
    else StaleIn(current, upTo - 1, requested) + [upTo - 1]
  }

  // replaceRule as written: for a rule with a port the command is refused.
  function ReplacedIn(chain: seq<ChainRule>, number: nat, rule: ChainRule): seq<ChainRule> {
    if rule.port == 0 && ValidNumber(chain, number) then chain[number - 1 := rule] else chain
  }

  function DeletedIn(chain: seq<ChainRule>, number: nat): seq<ChainRule> {
    if ValidNumber(chain, number) then Without(chain, number - 1) else chain
  }

  // The second loop as written, when it meets the new rules in this order.
  function Placed(t: Twin, order: seq<ChainRule>, stale: seq<nat>): (r: Twin)
    requires forall i | 0 <= i < |stale| :: stale[i] < |t.mirror|
    ensures |r.mirror| >= |t.mirror|
  {
    if order == [] then t
    else
      var k, before := |order| - 1, Placed(t, order[..|order| - 1], stale);
      if k < |stale|
      then Twin(before.mirror[stale[k] := order[k]], ReplacedIn(before.chain, stale[k], order[k]))
      else Twin(before.mirror + [order[k]], before.chain + [order[k]])
  }

  // The third loop as written: one number again and again, and a mirror that keeps its length.
  function Dropped(t: Twin, number: nat, times: nat): (r: Twin)
    requires number < |t.mirror|
    ensures |r.mirror| == |t.mirror|
  {
    if times == 0 then t else DroppedOnce(Dropped(t, number, times - 1), number)
  }

  function DroppedOnce(t: Twin, number: nat): (r: Twin)
    requires number < |t.mirror|
    ensures |r.mirror| == |t.mirror|
  {
    Twin(
      t.mirror[..number] + t.mirror[number + 1..] + [t.mirror[|t.mirror| - 1]],
      DeletedIn(t.chain, number))
  }

  function Edited(t: Twin, order: seq<ChainRule>, stale: seq<nat>): Twin
    requires forall i | 0 <= i < |stale| :: stale[i] < |t.mirror|
  {
    if |order| < |stale| then Dropped(Placed(t, order, stale), stale[|order|], |stale| - |order|)
    else Placed(t, order, stale)
  }

  // The order in which the map of new rules is gone through.
  ghost predicate IsOrder(order: seq<ChainRule>, new_: set<ChainRule>) {
    Distinct(order) && Elements(order) == new_
  }

  // The update branch as written.
  ghost predicate Rewritten(t: Twin, requested: set<ChainRule>, z: Twin) {
    exists order ::
      IsOrder(order, requested - Elements(t.mirror))
      && z == Edited(t, order, StaleIn(t.mirror, |t.mirror|, requested))
  }

  // A mirror and a chain of exactly these rules.
  ghost predicate Exactly(t: Twin, requested: set<ChainRule>) {
    Synced(t) && Elements(t.chain) == requested
  }

  // Whether there is anything to do; a rule list of another length always counts as a change.
  predicate Changes(mirror: seq<ChainRule>, rules: seq<ChainRule>) {
    |mirror| != |rules| || exists r | r in mirror :: r !in rules
  }

  // UpdateUser with a list of rules, for a user with or without a chain.
  ghost predicate Updates(mended: bool, t: Option<Twin>, rules: seq<ChainRule>, z: Option<Twin>) {
    match t
    case None => if rules == [] then z == None else z.Some? && Exactly(z.value, Elements(rules))
    case Some(t) =>
      if !Changes(t.mirror, rules) then z == Some(t)
      else z.Some? && if mended then Exactly(z.value, Elements(rules)) else Rewritten(t, Elements(rules), z.value)
  }

  ghost function RulesOf(t: Option<Twin>): set<ChainRule> {
    if t.Some? then Elements(t.value.chain) else {}
  }

  // --- One update of a mirror and chain in step.

  lemma {:induction false} StaleMeans(current: seq<ChainRule>, upTo: nat, requested: set<ChainRule>, p: nat)
    requires p < upTo <= |current|
    ensures p in StaleIn(current, upTo, requested) <==> !(current[p] in requested && current[p] !in current[..p])
  {
    if p < upTo - 1 {
      StaleMeans(current, upTo - 1, requested, p);
    }
  }

  // Nothing stale: the new rules go to the end.
  lemma {:induction false} PlacedAtEnd(t: Twin, order: seq<ChainRule>)
    ensures Placed(t, order, []) == Twin(t.mirror + order, t.chain + order)
  {
    if order != [] {
      PlacedAtEnd(t, order[..|order| - 1]);
      assert order == order[..|order| - 1] + [order[|order| - 1]];
    }
  }

  lemma OrderAppended(start: seq<ChainRule>, order: seq<ChainRule>, requested: set<ChainRule>)
    requires Distinct(start) && Elements(start) <= requested && IsOrder(order, requested - Elements(start))
    ensures Distinct(start + order) && Elements(start + order) == requested
  {
    assert forall x | x in order :: x in Elements(order) && x !in Elements(start);
    assert forall x | x in start :: x in Elements(start);
    assert forall x :: x in start + order <==> x in start || x in order;
    assert forall x | x in requested :: x in Elements(start) || x in Elements(order);
    forall i, j | 0 <= i < j < |start + order|
      ensures (start + order)[i] != (start + order)[j]
    {
      assert i < |start| <= j ==> order[j - |start|] in order;
    }
  }

  lemma {:induction false} NothingStale(current: seq<ChainRule>, upTo: nat, requested: set<ChainRule>)
    requires upTo <= |current| && Distinct(current) && Elements(current) <= requested
    ensures StaleIn(current, upTo, requested) == []
  {
    if upTo > 0 {
      NothingStale(current, upTo - 1, requested);
      assert current[upTo - 1] in Elements(current);
    }
  }

  // Every rule asked for again: mirror and chain end up as one list of exactly the requested rules.
  lemma SyncedGrows(t: Twin, requested: set<ChainRule>, z: Twin)
    requires Synced(t) && Elements(t.chain) <= requested && Rewritten(t, requested, z)
    ensures Exactly(z, requested)
  {
    hide Elements, Distinct, Placed;
    NothingStale(t.mirror, |t.mirror|, requested);
    var order :| IsOrder(order, requested - Elements(t.mirror))
        && z == Edited(t, order, StaleIn(t.mirror, |t.mirror|, requested));
    PlacedAtEnd(t, order);
    OrderAppended(t.mirror, order, requested);
  }

  // The rule at the last stale position is in the chain, so many places further up.
  ghost predicate At(chain: seq<ChainRule>, position: int, rule: ChainRule) {
    0 <= position < |chain| && chain[position] == rule
  }

  lemma {:induction false} PlacedKeepsLast(t: Twin, order: seq<ChainRule>, stale: seq<nat>, rule: ChainRule)
    requires forall i | 0 <= i < |stale| :: stale[i] < |t.mirror|
    requires forall i, j | 0 <= i < j < |stale| :: stale[i] < stale[j]
    requires stale != [] && At(t.chain, stale[|stale| - 1], rule)
    ensures At(Placed(t, order, stale).chain, stale[|stale| - 1], rule)
  {
    if order != [] {
      PlacedKeepsLast(t, order[..|order| - 1], stale, rule);
    }
  }

  // Strictly ascending positions are at least as far apart as their places in the list.
  lemma {:induction false} StaleGap(stale: seq<nat>, from: nat)
    requires forall i, j | 0 <= i < j < |stale| :: stale[i] < stale[j]
    requires from < |stale|
    ensures stale[|stale| - 1] >= stale[from] + (|stale| - 1 - from)
    decreases |stale| - from
  {
    if from < |stale| - 1 {
      StaleGap(stale, from + 1);
    }
  }

  lemma DeletedKeeps(chain: seq<ChainRule>, number: nat, at: nat, rule: ChainRule)
    requires At(chain, at, rule) && number <= at
    ensures exists next :: at - 1 <= next <= at && At(DeletedIn(chain, number), next, rule)
  {
    if ValidNumber(chain, number) {
      assert At(DeletedIn(chain, number), at - 1, rule);
    } else {
      assert At(DeletedIn(chain, number), at, rule);
    }
  }

  lemma {:induction false} DroppedKeepsLast(t: Twin, number: nat, times: nat, last: nat, rule: ChainRule)
    requires number < |t.mirror| && number + times <= last + 1 && At(t.chain, last, rule)
    ensures exists at :: last - times <= at <= last && At(Dropped(t, number, times).chain, at, rule)
  {
    hide At, DeletedIn;
    if times == 0 {
      assert At(Dropped(t, number, times).chain, last, rule);
    } else {
      DroppedKeepsLast(t, number, times - 1, last, rule);
      var before := Dropped(t, number, times - 1);
      var at :| last - (times - 1) <= at <= last && At(before.chain, at, rule);
      DeletedKeeps(before.chain, number, at, rule);
      var next :| at - 1 <= next <= at && At(DeletedIn(before.chain, number), next, rule);
      assert At(Dropped(t, number, times).chain, next, rule);
    }
  }

  lemma LastStale(current: seq<ChainRule>, requested: set<ChainRule>)
    requires Distinct(current) && !(Elements(current) <= requested)
    ensures var stale := StaleIn(current, |current|, requested);
      stale != [] && current[stale[|stale| - 1]] !in requested
  {
    var stale := StaleIn(current, |current|, requested);
    var rule :| rule in Elements(current) && rule !in requested;
    var p :| 0 <= p < |current| && current[p] == rule;
    StaleMeans(current, |current|, requested, p);
    var last := stale[|stale| - 1];
    assert last in stale;
    StaleMeans(current, |current|, requested, last);
    assert current[last] !in current[..last];
  }

  /** Some rule not asked for again: such a rule stays in the chain, the last one of them. */
  lemma SyncedWithdraws(t: Twin, requested: set<ChainRule>, z: Twin)
    requires Synced(t) && !(Elements(t.chain) <= requested) && Rewritten(t, requested, z)
    ensures exists rule :: rule in t.chain && rule !in requested && rule in z.chain
  {
    hide Elements, Distinct, Placed, Dropped, StaleIn, IsOrder;
    LastStale(t.mirror, requested);
    var stale := StaleIn(t.mirror, |t.mirror|, requested);
    var last := stale[|stale| - 1];
    var rule := t.chain[last];
    var order :| IsOrder(order, requested - Elements(t.mirror)) && z == Edited(t, order, stale);
    PlacedKeepsLast(t, order, stale, rule);
    if |order| < |stale| {
      StaleGap(stale, |order|);
      DroppedKeepsLast(Placed(t, order, stale), stale[|order|], |stale| - |order|, last, rule);
    }
    assert rule in z.chain;
  }

  /**
   UpdateUser on a mirror and chain in step: the chain holds exactly the requested rules afterwards if and
   only if it is mended or every rule held before is requested again, and then they are in step again.
   */
  lemma SyncedUpdateIff(mended: bool, t: Option<Twin>, rules: seq<ChainRule>, z: Option<Twin>)
    requires Updates(mended, t, rules, z) && (t.Some? ==> Synced(t.value))
    ensures RulesOf(z) == Elements(rules) <==> mended || RulesOf(t) <= Elements(rules)
    ensures RulesOf(z) == Elements(rules) ==> z.Some? ==> Synced(z.value)
    ensures RulesOf(z) != Elements(rules) ==> exists rule :: rule in RulesOf(t) && rule !in rules && rule in RulesOf(z)
  {
    hide Rewritten;
    if t.Some? {
      var requested := Elements(rules);
      assert forall r | r in t.value.chain :: r in Elements(t.value.chain);
      if !Changes(t.value.mirror, rules) {
        SameSizeInclusion(t.value.mirror, rules);
      } else if !mended {
        if RulesOf(t) <= requested {
          SyncedGrows(t.value, requested, z.value);
        } else {
          SyncedWithdraws(t.value, requested, z.value);
        }
      }
    }
  }

  lemma OrderNext(order: seq<ChainRule>, done: set<ChainRule>, entry: ChainRule)
    requires IsOrder(order, done) && entry !in done
    ensures IsOrder(order + [entry], done + {entry})
  {
    ElementsAppend(order, entry);
    assert entry !in order by {
      assert entry !in Elements(order);
    }
  }

  lemma PlacedNext(t: Twin, order: seq<ChainRule>, stale: seq<nat>, entry: ChainRule)
    requires forall i | 0 <= i < |stale| :: stale[i] < |t.mirror|
    ensures var k, before := |order|, Placed(t, order, stale);
      Placed(t, order + [entry], stale) ==
        if k < |stale| then Twin(before.mirror[stale[k] := entry], ReplacedIn(before.chain, stale[k], entry))
        else Twin(before.mirror + [entry], before.chain + [entry])
  {
    assert (order + [entry])[..|order|] == order;
  }

  lemma DroppedNever(t: Twin)
    ensures forall number | 0 <= number < |t.mirror| :: Dropped(t, number, 0) == t
  {
  }

  lemma DroppedNext(t: Twin, number: nat, times: nat)
    requires number < |t.mirror|
    ensures Dropped(t, number, times + 1) == DroppedOnce(Dropped(t, number, times), number)
  {
  }

  lemma ChangesMeans(mirror: seq<ChainRule>, rules: seq<ChainRule>)
    ensures Changes(mirror, rules) <==> |mirror| != |rules| || exists r | r in mirror :: r !in Elements(rules)
  {
    assert forall r :: r in rules <==> r in Elements(rules);
  }

  // --- One update of any mirror and chain, in step or not.

  // All rules of both are among these.
  ghost predicate Within(t: Twin, rules: set<ChainRule>) {
    Elements(t.mirror) <= rules && Elements(t.chain) <= rules
  }

  lemma {:induction false} PlacedWithin(t: Twin, order: seq<ChainRule>, stale: seq<nat>, rules: set<ChainRule>)
    requires forall i | 0 <= i < |stale| :: stale[i] < |t.mirror|
    requires Within(t, rules) && Elements(order) <= rules
    ensures var r := Placed(t, order, stale);
      && Within(r, rules) && |r.mirror| - |t.mirror| == |r.chain| - |t.chain| >= 0
  {
    if order != [] {
      var k := |order| - 1;
      assert order[k] in Elements(order) && forall x | x in Elements(order[..k]) :: x in Elements(order);
      PlacedWithin(t, order[..k], stale, rules);
      var before := Placed(t, order[..k], stale);
      ChangedWithin(before.mirror, order[k], rules);
      ChangedWithin(before.chain, order[k], rules);
    }
  }

  lemma ChangedWithin(s: seq<ChainRule>, rule: ChainRule, rules: set<ChainRule>)
    requires Elements(s) <= rules && rule in rules
    ensures Elements(s + [rule]) <= rules
    ensures forall s' | |s'| == |s| && (forall i | 0 <= i < |s| :: s'[i] == s[i] || s'[i] == rule) ::
      Elements(s') <= rules
    ensures forall i | 0 <= i < |s| :: Elements(Without(s, i)) <= rules
    ensures s != [] ==> forall i | 0 <= i < |s| :: Elements(s[..i] + s[i + 1..] + [s[|s| - 1]]) <= rules
  {
    assert forall x | x in s :: x in Elements(s);
  }

  lemma {:induction false} DroppedWithin(t: Twin, number: nat, times: nat, rules: set<ChainRule>)
    requires number < |t.mirror| && Within(t, rules)
    ensures var r := Dropped(t, number, times); Within(r, rules) && |r.chain| <= |t.chain|
  {
    if times > 0 {
      DroppedWithin(t, number, times - 1, rules);
      var before := Dropped(t, number, times - 1);
      var rule := before.mirror[|before.mirror| - 1];
      assert rule in Elements(before.mirror);
      ChangedWithin(before.mirror, rule, rules);
      ChangedWithin(before.chain, rule, rules);
    }
  }

  /**
   An update as written, in step or not, brings nothing into mirror or chain but what was there or is asked for.
   The mirror never gets shorter, and the chain never gains on it.
   */
  lemma RewrittenWithin(t: Twin, requested: set<ChainRule>, z: Twin, rules: set<ChainRule>)
    requires Rewritten(t, requested, z) && Within(t, rules) && requested <= rules
    ensures Within(z, rules) && |t.mirror| <= |z.mirror| && |z.chain| - |t.chain| <= |z.mirror| - |t.mirror|
  {
    hide Placed, Dropped, StaleIn, Within, Elements;
    var stale := StaleIn(t.mirror, |t.mirror|, requested);
    var order :| IsOrder(order, requested - Elements(t.mirror)) && z == Edited(t, order, stale);
    PlacedWithin(t, order, stale, rules);
    if |order| < |stale| {
      DroppedWithin(Placed(t, order, stale), stale[|order|], |stale| - |order|, rules);
    }
  }

  // --- A run of updates that loses a rule that is asked for.

  lemma OneInOrder(order: seq<ChainRule>, rule: ChainRule)
    requires IsOrder(order, {rule})
    ensures order == [rule]
  {
    DistinctCount(order);
    assert order[0] in Elements(order);
  }

  // One more rule goes to the end.
  lemma OneMore(t: Twin, rule: ChainRule, z: Option<Twin>)
    requires Synced(t) && rule !in t.chain && Updates(false, Some(t), t.chain + [rule], z)
    ensures z == Some(Twin(t.chain + [rule], t.chain + [rule])) && Distinct(t.chain + [rule])
  {
    hide Elements, Placed, StaleIn, Distinct;
    var requested := Elements(t.chain + [rule]);
    OneAdded(t.chain, rule);
    NothingStale(t.mirror, |t.mirror|, requested);
    var order :| IsOrder(order, requested - Elements(t.mirror)) && z == Some(Edited(t, order, []));
    OneInOrder(order, rule);
    PlacedAtEnd(t, order);
  }

  lemma OneAdded(s: seq<ChainRule>, rule: ChainRule)
    requires Distinct(s) && rule !in s
    ensures Elements(s) <= Elements(s + [rule]) && Elements(s + [rule]) - Elements(s) == {rule}
    ensures Distinct(s + [rule])
  {
    ElementsAppend(s, rule);
  }

  lemma OneElement(rule: ChainRule)
    ensures Elements([rule]) == {rule} && Distinct([rule])
  {
  }

  lemma ThreeAdded(
    t: Option<Twin>, t': Option<Twin>, t'': Option<Twin>, a: ChainRule, b: ChainRule, c: ChainRule)
    requires a != b && b != c && a != c
    requires Updates(false, None, [a], t) && Updates(false, t, [a, b], t') && Updates(false, t', [a, b, c], t'')
    ensures t'' == Some(Twin([a, b, c], [a, b, c]))
  {
    hide Rewritten, Changes;
    OneElement(a);
    OneInOrder(t.value.chain, a);
    assert [a] + [b] == [a, b] && [a, b] + [c] == [a, b, c];
    OneMore(t.value, b, t');
    OneMore(t'.value, c, t'');
  }

  lemma DroppedTwice(t: Twin, number: nat)
    requires number < |t.mirror|
    ensures Dropped(t, number, 2) == DroppedOnce(DroppedOnce(t, number), number)
  {
    hide DroppedOnce;
    assert Dropped(t, number, 1) == DroppedOnce(t, number);
  }

  lemma FirstDropped(a: ChainRule, b: ChainRule, c: ChainRule, chain: seq<ChainRule>)
    ensures DroppedOnce(Twin([a, b, c], chain), 0) == Twin([b, c, c], chain)
  {
  }

  lemma SecondDropped(a: ChainRule, b: ChainRule, c: ChainRule, chain: seq<ChainRule>)
    requires chain != []
    ensures DroppedOnce(Twin([a, b, c], chain), 1) == Twin([a, c, c], chain[1..])
  {
    assert Without(chain, 0) == chain[1..];
  }

  lemma MiddleStale(a: ChainRule, b: ChainRule, c: ChainRule)
    requires a != b && b != c && a != c
    ensures Elements([b]) == {b}
    ensures StaleIn([a, b, c], 3, {b}) == [0, 2] && {b} - Elements([a, b, c]) == {}
    ensures StaleIn([c, c, c], 3, {b}) == [0, 1, 2] && {b} - Elements([c, c, c]) == {b}
  {
    var s, t := [a, b, c], [c, c, c];
    assert StaleIn(s, 0, {b}) == [] && StaleIn(s, 1, {b}) == [0] && StaleIn(s, 2, {b}) == [0];
    assert StaleIn(t, 0, {b}) == [] && StaleIn(t, 1, {b}) == [0] && StaleIn(t, 2, {b}) == [0, 1];
    assert s[1] in Elements(s);
  }

  // Of three rules the middle one is asked for: the mirror loses it, the chain keeps all three.
  lemma MiddleWanted(t: Twin, a: ChainRule, b: ChainRule, c: ChainRule, z: Option<Twin>)
    requires a != b && b != c && a != c && t == Twin([a, b, c], [a, b, c]) && Updates(false, Some(t), [b], z)
    ensures z == Some(Twin([c, c, c], [a, b, c]))
  {
    hide StaleIn, Elements, Dropped, DroppedOnce;
    MiddleStale(a, b, c);
    var order :| IsOrder(order, {b} - Elements(t.mirror)) && z == Some(Edited(t, order, StaleIn(t.mirror, 3, {b})));
    NoneInOrder(order);
    DroppedTwice(t, 0);
    FirstDropped(a, b, c, t.chain);
    FirstDropped(b, c, c, t.chain);
  }

  lemma NoneInOrder(order: seq<ChainRule>)
    requires IsOrder(order, {})
    ensures order == []
  {
    DistinctCount(order);
  }

  // Asked for again, it enters the mirror and leaves the chain.
  lemma MiddleWantedAgain(t: Twin, a: ChainRule, b: ChainRule, c: ChainRule, z: Option<Twin>)
    requires a != b && b != c && a != c && t == Twin([c, c, c], [a, b, c]) && Updates(false, Some(t), [b], z)
    ensures z.Some? && z.value.chain == [c]
  {
    hide StaleIn, Elements, Dropped, DroppedOnce, Placed, IsOrder;
    MiddleStale(a, b, c);
    var stale := [0, 1, 2];
    var order :| IsOrder(order, {b} - Elements(t.mirror)) && z == Some(Edited(t, order, StaleIn(t.mirror, 3, {b})));
    OneInOrder(order, b);
    PlacedFirst(t, b, stale);
    var placed := Twin([b, c, c], [a, b, c]);
    assert Placed(t, [b], stale) == placed;
    DroppedTwice(placed, 1);
    SecondDropped(b, c, c, placed.chain);
    assert placed.chain[1..] == [b, c];
    SecondDropped(b, c, c, [b, c]);
  }

  // The first new rule at the first place: number 0 is no rule number, so that only the mirror changes.
  lemma PlacedFirst(t: Twin, rule: ChainRule, stale: seq<nat>)
    requires stale != [] && stale[0] == 0 && forall i | 0 <= i < |stale| :: stale[i] < |t.mirror|
    ensures Placed(t, [rule], stale) == Twin(t.mirror[0 := rule], t.chain)
  {
    assert [rule][..0] == [];
  }
}
