/** The achievements page (`public/js/achievements.js`): grouping the `/list` result by
    category, the category labels, and what each card shows. The DOM and styling are
    not modelled; a card is the record of the decisions that build it. */
module AchievementView {
  import opened Wrappers
  import opened JsText

  /** One value of the `/list` result as the page reads it. `ownId` is an `id` field
      inside the value, which the object spread lets win over the key. */
  datatype Item = Item(
    ownId: Option<string>, category: Option<string>, title: Option<string>, description: Option<string>,
    icon: Option<string>, hidden: bool, unlocked: bool, unlockedAt: Option<string>,
    progress: Option<real>, maxProgress: Option<real>)

  // ---------------------------------------------------------------------------
  // Grouping
  // ---------------------------------------------------------------------------

  datatype Group = Group(key: string, items: seq<(string, Item)>)

  function GroupKey(item: Item): string {
    OrElse(item.category, "other")
  }

  function Keys(groups: seq<Group>): seq<string> {
    seq(|groups|, i requires 0 <= i < |groups| => groups[i].key)
  }

  predicate DistinctKeys(groups: seq<Group>) {
    forall i, j :: 0 <= i < j < |groups| ==> groups[i].key != groups[j].key
  }

  /** The items of the given key, in order. */
  function WithKey(entries: seq<(string, Item)>, key: string): (r: seq<(string, Item)>)
    ensures |r| <= |entries|
  {
    if |entries| == 0 then []
    else (if GroupKey(entries[0].1) == key then [entries[0]] else []) + WithKey(entries[1..], key)
  }

  /** The entries in `groups` under `key` (none when the key is absent). */
  function Members(groups: seq<Group>, key: string): seq<(string, Item)> {
    if |groups| == 0 then []
    else if groups[0].key == key then groups[0].items
    else Members(groups[1..], key)
  }

  function Total(groups: seq<Group>): nat {
    if |groups| == 0 then 0 else |groups[0].items| + Total(groups[1..])
  }

  /** `categories[category].push(...)`, creating the group at the end when it is new. */
  function AddTo(groups: seq<Group>, key: string, entry: (string, Item)): (r: seq<Group>)
    requires DistinctKeys(groups)
    ensures DistinctKeys(r)
    ensures Total(r) == Total(groups) + 1
    ensures Members(r, key) == Members(groups, key) + [entry]
    ensures forall k :: k != key ==> Members(r, k) == Members(groups, k)
    ensures forall k :: k in Keys(r) <==> k in Keys(groups) || k == key
  {
    if |groups| == 0 then
      var r := [Group(key, [entry])];
      assert Keys(r) == [key];
      r
    else if groups[0].key == key then
      var r := [Group(key, groups[0].items + [entry])] + groups[1..];
      assert Keys(r) == Keys(groups);
      assert Keys(groups)[0] == key;
      r
    else
      HeadKeyNotInTail(groups);
      var rest := AddTo(groups[1..], key, entry);
      var r := [groups[0]] + rest;
      assert r[0] == groups[0] && r[1..] == rest;
      ConsDistinct(groups[0], rest);
      KeysCons(groups[0], groups[1..]);
      KeysCons(groups[0], rest);
      assert groups == [groups[0]] + groups[1..];
      r
  }

  lemma KeysCons(g: Group, rest: seq<Group>)
    ensures Keys([g] + rest) == [g.key] + Keys(rest)
    ensures forall k :: k in Keys([g] + rest) <==> k == g.key || k in Keys(rest)
  {
    var r := [g] + rest;
    assert forall i :: 1 <= i < |r| ==> r[i] == rest[i - 1];
  }

  lemma HeadKeyNotInTail(groups: seq<Group>)
    requires |groups| > 0 && DistinctKeys(groups)
    ensures DistinctKeys(groups[1..])
    ensures groups[0].key !in Keys(groups[1..])
  {
    forall m | 0 <= m < |groups| - 1 ensures Keys(groups[1..])[m] != groups[0].key {
      assert groups[m + 1].key == Keys(groups[1..])[m];
    }
  }

  lemma ConsDistinct(g: Group, rest: seq<Group>)
    requires DistinctKeys(rest) && g.key !in Keys(rest)
    ensures DistinctKeys([g] + rest)
  {
    var r := [g] + rest;
    forall i, j | 0 <= i < j < |r| ensures r[i].key != r[j].key {
      if i == 0 {
        assert r[j].key == Keys(rest)[j - 1];
      } else {
        assert r[i] == rest[i - 1] && r[j] == rest[j - 1];
      }
    }
  }

  /** The grouping loop of `displayAchievements`, over `Object.entries` order. */
  function GroupAll(entries: seq<(string, Item)>): (groups: seq<Group>)
    ensures DistinctKeys(groups)
    ensures Total(groups) == |entries|
  {
    if |entries| == 0 then []
    else
      var init := entries[..|entries| - 1];
      var last := entries[|entries| - 1];
      AddTo(GroupAll(init), GroupKey(last.1), last)
  }

  /** Every entry lands in the one group of its key, in order, and there is a group for
      exactly the keys that occur. */
  lemma {:induction false} GroupAllMembers(entries: seq<(string, Item)>)
    ensures forall k :: Members(GroupAll(entries), k) == WithKey(entries, k)
    ensures forall k :: k in Keys(GroupAll(entries)) <==> exists i :: 0 <= i < |entries| && GroupKey(entries[i].1) == k
    decreases |entries|
  {
    if |entries| > 0 {
      var init := entries[..|entries| - 1];
      var last := entries[|entries| - 1];
      assert entries == init + [last];
      GroupAllMembers(init);
      forall k ensures Members(GroupAll(entries), k) == WithKey(entries, k) {
        WithKeyAppend(init, [last], k);
      }
      assert forall i :: 0 <= i < |init| ==> init[i] == entries[i];
    }
  }

  lemma {:induction false} WithKeyAppend(a: seq<(string, Item)>, b: seq<(string, Item)>, key: string)
    ensures WithKey(a + b, key) == WithKey(a, key) + WithKey(b, key)
  {
    if |a| == 0 {
      assert a + b == b;
    } else {
      var head := if GroupKey(a[0].1) == key then [a[0]] else [];
      assert (a + b)[0] == a[0];
      assert (a + b)[1..] == a[1..] + b;
      WithKeyAppend(a[1..], b, key);
      calc {
        WithKey(a + b, key);
        head + WithKey(a[1..] + b, key);
        head + (WithKey(a[1..], key) + WithKey(b, key));
        (head + WithKey(a[1..], key)) + WithKey(b, key);
        WithKey(a, key) + WithKey(b, key);
      }
    }
  }

  // ---------------------------------------------------------------------------
  // getCategoryName
  // ---------------------------------------------------------------------------

  const CategoryNames: map<string, string> := map[
    "beginner" := "初心者", "crypto" := "暗号", "forensics" := "フォレンジック", "web" := "Web",
    "milestone" := "マイルストーン", "streak" := "連続記録", "study" := "学習", "speed" := "スピード",
    "completion" := "完全制覇", "skill" := "スキル", "other" := "その他"]

  /** `names[category] || category` */
  function CategoryName(category: string): (shown: string)
    ensures category in CategoryNames ==> shown == CategoryNames[category]
    ensures category !in CategoryNames ==> shown == category
    ensures shown == "" <==> category == ""
  {
    if category in CategoryNames && CategoryNames[category] != "" then CategoryNames[category] else category
  }

  // ---------------------------------------------------------------------------
  // createAchievementCard
  // ---------------------------------------------------------------------------

  datatype Bar = Bar(percent: real, progress: real, maxProgress: real)

  datatype Card = Card(
    icon: string, title: string, description: string, italic: bool,
    bar: Option<Bar>, badge: bool, showsDate: bool)

  /** `x || d` on a number: 0 and a missing value give the default. */
  function NumberOr(x: Option<real>, d: real): (r: real)
    ensures x.Some? && x.value != 0.0 ==> r == x.value
    ensures x.None? || x.value == 0.0 ==> r == d
  {
    if x.Some? && x.value != 0.0 then x.value else d
  }

  /** `Math.min((progress / maxProgress) * 100, 100)`, with a non-zero divisor. */
  function Percent(progress: real, maxProgress: real): (p: real)
    requires maxProgress != 0.0
    ensures p <= 100.0
    ensures 0.0 <= progress && 0.0 < maxProgress ==> 0.0 <= p
    ensures progress >= maxProgress > 0.0 ==> p == 100.0
    ensures progress < maxProgress && 0.0 < maxProgress ==> p == (progress / maxProgress) * 100.0
    ensures p == 100.0 || p == (progress / maxProgress) * 100.0
  {
    var raw := (progress / maxProgress) * 100.0;
    assert progress < maxProgress && 0.0 < maxProgress ==> raw < 100.0 by {
      if progress < maxProgress && 0.0 < maxProgress {
        assert progress / maxProgress < 1.0;
      }
    }
    if raw < 100.0 then raw else 100.0
  }

  const HiddenDescription: string := "この実績は隠されています"

  /** The decisions of `createAchievementCard` for the entry `key`. */
  function CardOf(key: string, a: Item): (c: Card)
    ensures c.badge <==> a.unlocked
    ensures c.showsDate <==> a.unlocked && Truthy(a.unlockedAt)
    ensures c.bar.Some? <==> !a.unlocked && NumberOr(a.maxProgress, 1.0) > 1.0
    ensures c.bar.Some? ==>
      c.bar.value.progress == NumberOr(a.progress, 0.0) && c.bar.value.maxProgress == NumberOr(a.maxProgress, 1.0)
      && c.bar.value.percent <= 100.0
    ensures a.hidden && !a.unlocked ==> c.icon == "❓" && c.title == "???" && c.description == HiddenDescription && c.italic
    ensures !(a.hidden && !a.unlocked) ==>
      && !c.italic
      && c.icon == OrElse(a.icon, "🏆")
      && c.title == OrElse(a.title, if a.ownId.Some? then a.ownId.value else key)
      && c.description == OrElse(a.description, "")
  {
    var id := if a.ownId.Some? then a.ownId.value else key;
    var progress := NumberOr(a.progress, 0.0);
    var maxProgress := NumberOr(a.maxProgress, 1.0);
    var bar := if !a.unlocked && maxProgress > 1.0 then Some(Bar(Percent(progress, maxProgress), progress, maxProgress)) else None;
    if a.hidden && !a.unlocked then Card("❓", "???", HiddenDescription, true, bar, false, false)
    else Card(OrElse(a.icon, "🏆"), OrElse(a.title, id), OrElse(a.description, ""), false, bar, a.unlocked,
              a.unlocked && Truthy(a.unlockedAt))
  }

  /** A hidden, locked achievement gives nothing away but its progress: two such items
      with the same progress figures render the same card, whatever their id, title,
      icon, description or category. */
  lemma HiddenCardsLookAlike(k1: string, a1: Item, k2: string, a2: Item)
    requires a1.hidden && !a1.unlocked && a2.hidden && !a2.unlocked
    requires NumberOr(a1.progress, 0.0) == NumberOr(a2.progress, 0.0)
    requires NumberOr(a1.maxProgress, 1.0) == NumberOr(a2.maxProgress, 1.0)
    ensures CardOf(k1, a1) == CardOf(k2, a2)
  {
  }
}
