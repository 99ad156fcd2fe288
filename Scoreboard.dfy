/** The end-of-level scoreboard: a tally of kills and score per enemy name,
    updated on each enemy-destroyed event, and the ranked list of enemy types
    with their tallies and the grand totals built from it. */
module UI {

  /** A tally `(kills, totalScore)`. */
  datatype Tally = Tally(kills: int, totalScore: int)

  /** The tally of a name that was never killed. */
  const Unseen := Tally(0, 0)

  /** The name under which the boss's kills are tallied. */
  const BossName := "Boss"

  /** An enemy-destroyed event: the enemy's name and the score it was worth. */
  datatype EnemyDestroyedEvent = EnemyDestroyedEvent(name: string, score: int)

  /** One line of the ranking (its sprite is left out). */
  datatype Row = Row(name: string, kills: int, totalScore: int)

  /** What `OrderScores` shows: the ranked lines and the grand total. */
  datatype Board = Board(rows: seq<Row>, total: Tally)

  function Add(a: Tally, b: Tally): Tally
  {
    Tally(a.kills + b.kills, a.totalScore + b.totalScore)
  }

  predicate Distinct<T(==)>(s: seq<T>)
  {
    forall i, j :: 0 <= i < j < |s| ==> s[i] != s[j]
  }

  /** `order` lists every key of `m` exactly once (a dictionary's enumeration order). */
  ghost predicate EnumeratesKeys(order: seq<string>, m: map<string, Tally>)
  {
    Distinct(order) && forall k :: k in order <==> k in m
  }

  /** `TryGetValue`: the stored tally, or the default `(0, 0)` when the name is absent. */
  function TallyOf(m: map<string, Tally>, name: string): Tally
  {
    if name in m then m[name] else Unseen
  }

  // ---------------------------------------------------------------------------
  // Recording kills

  /** The dictionary after a kill of `name` worth `score` has been recorded. */
  function Recorded(m: map<string, Tally>, name: string, score: int): (r: map<string, Tally>)
    ensures r.Keys == m.Keys + {name}
    ensures r[name] == Tally(TallyOf(m, name).kills + 1, TallyOf(m, name).totalScore + score)
    ensures forall k :: k in m && k != name ==> r[k] == m[k]
    ensures forall k :: k in m ==> r[k].kills >= m[k].kills
    ensures |r| == if name in m then |m| else |m| + 1
  {
    m[name := Tally(TallyOf(m, name).kills + 1, TallyOf(m, name).totalScore + score)]
  }

  /** The names of the recorded events. */
  function Names(events: seq<EnemyDestroyedEvent>): set<string>
  {
    set i | 0 <= i < |events| :: events[i].name
  }

  /** The sum of the scores of the recorded events. */
  function ScoreSum(events: seq<EnemyDestroyedEvent>): int
  {
    if events == [] then 0 else ScoreSum(events[..|events| - 1]) + events[|events| - 1].score
  }

  /** `killedEnemies.Values.Sum(...)` for kills and for score, enumerating the keys in `keys`. */
  function Totals(m: map<string, Tally>, keys: seq<string>): Tally
    requires forall k :: k in keys ==> k in m
  {
    if keys == [] then Unseen else Add(Totals(m, keys[..|keys| - 1]), m[keys[|keys| - 1]])
  }

  lemma {:induction false} TotalsIgnoreOtherKeys(m: map<string, Tally>, keys: seq<string>, k: string, t: Tally)
    requires forall j :: j in keys ==> j in m
    requires k !in keys
    ensures Totals(m[k := t], keys) == Totals(m, keys)
  {
    if keys != [] {
      TotalsIgnoreOtherKeys(m, keys[..|keys| - 1], k, t);
    }
  }

  lemma {:induction false} TotalsAfterUpdate(m: map<string, Tally>, keys: seq<string>, k: string, t: Tally)
    requires forall j :: j in keys ==> j in m
    requires Distinct(keys) && k in keys
    ensures Totals(m[k := t], keys).kills == Totals(m, keys).kills - m[k].kills + t.kills
    ensures Totals(m[k := t], keys).totalScore == Totals(m, keys).totalScore - m[k].totalScore + t.totalScore
  {
    var init, last := keys[..|keys| - 1], keys[|keys| - 1];
    if last == k {
      assert k !in init by {
        forall i | 0 <= i < |init| ensures init[i] != k {
          assert init[i] == keys[i];
        }
      }
      TotalsIgnoreOtherKeys(m, init, k, t);
    } else {
      assert k in init by {
        var i :| 0 <= i < |keys| && keys[i] == k;
        assert init[i] == k;
      }
      TotalsAfterUpdate(m, init, k, t);
    }
  }

  lemma {:induction false} TotalsWithoutIndex(m: map<string, Tally>, keys: seq<string>, i: int)
    requires forall j :: j in keys ==> j in m
    requires 0 <= i < |keys|
    ensures Totals(m, keys) == Add(Totals(m, keys[..i] + keys[i + 1..]), m[keys[i]])
  {
    var n := |keys|;
    var rest := keys[..i] + keys[i + 1..];
    if i < n - 1 {
      var init := keys[..n - 1];
      TotalsWithoutIndex(m, init, i);
      assert init[..i] + init[i + 1..] == rest[..|rest| - 1];
      assert rest[|rest| - 1] == keys[n - 1];
    } else {
      assert rest == keys[..n - 1];
    }
  }

  /** Leaving out the key at index `j` enumerates the map without that key. */
  lemma EnumerationWithout(a: seq<string>, m: map<string, Tally>, j: int)
    requires EnumeratesKeys(a, m) && 0 <= j < |a|
    ensures EnumeratesKeys(a[..j] + a[j + 1..], m - {a[j]})
  {
    var a' := a[..j] + a[j + 1..];
    assert forall i :: 0 <= i < |a'| ==> a'[i] == a[if i < j then i else i + 1];
    forall k ensures k in a' <==> k in m - {a[j]} {
      if k in m - {a[j]} {
        assert k in a;
        var i :| 0 <= i < |a| && a[i] == k;
        if i < j { assert a'[i] == k; } else { assert a'[i - 1] == k; }
      }
    }
  }

  /** The grand totals do not depend on the order in which the dictionary is enumerated. */
  lemma {:induction false} TotalsIndependentOfOrder(m: map<string, Tally>, a: seq<string>, b: seq<string>)
    requires EnumeratesKeys(a, m) && EnumeratesKeys(b, m)
    ensures Totals(m, a) == Totals(m, b)
    decreases |a|
  {
    if a != [] {
      var n := |a|;
      var x := a[n - 1];
      assert x in a && x in m && x in b;
      var j :| 0 <= j < |b| && b[j] == x;
      var m' := m - {x};
      EnumerationWithout(a, m, n - 1);
      EnumerationWithout(b, m, j);
      assert a[..n - 1] + a[n..] == a[..n - 1];
      TotalsIndependentOfOrder(m', a[..n - 1], b[..j] + b[j + 1..]);
      TotalsOnSubmap(m, m', a[..n - 1]);
      TotalsOnSubmap(m, m', b[..j] + b[j + 1..]);
      TotalsWithoutIndex(m, b, j);
    }
  }

  /** Totals over keys of a submap read the same values as over the whole map. */
  lemma {:induction false} TotalsOnSubmap(m: map<string, Tally>, m': map<string, Tally>, keys: seq<string>)
    requires forall k :: k in keys ==> k in m'
    requires forall k :: k in m' ==> k in m && m'[k] == m[k]
    ensures Totals(m', keys) == Totals(m, keys)
  {
    if keys != [] {
      TotalsOnSubmap(m, m', keys[..|keys| - 1]);
    }
  }

  /** Recording a kill of a name already in the dictionary adds one kill and the
      event's score to the grand totals. */
  lemma TotalsAfterRecordKnown(m: map<string, Tally>, order: seq<string>, name: string, score: int)
    requires EnumeratesKeys(order, m) && name in m
    ensures EnumeratesKeys(order, Recorded(m, name, score))
    ensures Totals(Recorded(m, name, score), order) == Add(Totals(m, order), Tally(1, score))
  {
    TotalsAfterUpdate(m, order, name, Tally(m[name].kills + 1, m[name].totalScore + score));
  }

  /** A new key appended to an enumeration enumerates the extended map. */
  lemma EnumerationAppended(order: seq<string>, m: map<string, Tally>, name: string, t: Tally)
    requires EnumeratesKeys(order, m) && name !in m
    ensures EnumeratesKeys(order + [name], m[name := t])
  {
    var order' := order + [name];
    forall p, q | 0 <= p < q < |order'| ensures order'[p] != order'[q] {
      if q == |order| { assert order'[p] in order; }
    }
  }

  /** Recording a kill of a new name appends it to the enumeration and adds one kill
      and the event's score to the grand totals. */
  lemma TotalsAfterRecordNew(m: map<string, Tally>, order: seq<string>, name: string, score: int)
    requires EnumeratesKeys(order, m) && name !in m
    ensures EnumeratesKeys(order + [name], Recorded(m, name, score))
    ensures Totals(Recorded(m, name, score), order + [name]) == Add(Totals(m, order), Tally(1, score))
  {
    var order' := order + [name];
    var r := Recorded(m, name, score);
    assert r == m[name := Tally(1, score)];
    EnumerationAppended(order, m, name, Tally(1, score));
    assert order'[..|order'| - 1] == order && order'[|order'| - 1] == name;
    assert Totals(r, order') == Add(Totals(r, order), Tally(1, score));
    TotalsIgnoreOtherKeys(m, order, name, Tally(1, score));
  }

  // ---------------------------------------------------------------------------
  // The ranking order: score descending, then kills ascending, then name ascending

  /** Ordinal (character-code) order on names: `a` sorts no later than `b`. */
  predicate NameAtMost(a: string, b: string)
    decreases |a|
  {
    a == [] || (b != [] && (a[0] < b[0] || (a[0] == b[0] && NameAtMost(a[1..], b[1..]))))
  }

  lemma {:induction false} NameAtMostTotal(a: string, b: string)
    ensures NameAtMost(a, b) || NameAtMost(b, a)
    decreases |a|
  {
    if a != [] && b != [] && a[0] == b[0] {
      NameAtMostTotal(a[1..], b[1..]);
    }
  }

  lemma {:induction false} NameAtMostAntisymmetric(a: string, b: string)
    requires NameAtMost(a, b) && NameAtMost(b, a)
    ensures a == b
    decreases |a|
  {
    if a != [] {
      NameAtMostAntisymmetric(a[1..], b[1..]);
      assert a == [a[0]] + a[1..] && b == [b[0]] + b[1..];
    }
  }

  lemma {:induction false} NameAtMostTransitive(a: string, b: string, c: string)
    requires NameAtMost(a, b) && NameAtMost(b, c)
    ensures NameAtMost(a, c)
    decreases |a|
  {
    if a != [] && a[0] == b[0] && b[0] == c[0] {
      NameAtMostTransitive(a[1..], b[1..], c[1..]);
    }
  }

  /** `a` is ranked no later than `b`. */
  predicate RankedBefore(a: Row, b: Row)
    ensures RankedBefore(a, b) ==> a.totalScore >= b.totalScore
    ensures RankedBefore(a, b) && a.totalScore == b.totalScore ==> a.kills <= b.kills
  {
    || a.totalScore > b.totalScore
    || (a.totalScore == b.totalScore && a.kills < b.kills)
    || (a.totalScore == b.totalScore && a.kills == b.kills && NameAtMost(a.name, b.name))
  }

  lemma RankedBeforeTotal(a: Row, b: Row)
    ensures RankedBefore(a, b) || RankedBefore(b, a)
  {
    NameAtMostTotal(a.name, b.name);
  }

  lemma RankedBeforeAntisymmetric(a: Row, b: Row)
    requires RankedBefore(a, b) && RankedBefore(b, a)
    ensures a == b
  {
    NameAtMostAntisymmetric(a.name, b.name);
  }

  lemma RankedBeforeTransitive(a: Row, b: Row, c: Row)
    requires RankedBefore(a, b) && RankedBefore(b, c)
    ensures RankedBefore(a, c)
  {
    if a.totalScore == b.totalScore == c.totalScore && a.kills == b.kills == c.kills {
      NameAtMostTransitive(a.name, b.name, c.name);
    }
  }

  predicate Sorted(s: seq<Row>)
  {
    forall i, j :: 0 <= i < j < |s| ==> RankedBefore(s[i], s[j])
  }

  lemma SortedCons(h: Row, t: seq<Row>)
    requires Sorted(t)
    requires forall y :: y in multiset(t) ==> RankedBefore(h, y)
    ensures Sorted([h] + t)
  {
    forall i, j | 0 <= i < j < |t| + 1 ensures RankedBefore(([h] + t)[i], ([h] + t)[j]) {
      assert ([h] + t)[j] == t[j - 1];
      assert t[j - 1] in multiset(t);
    }
  }

  /** The first row of a ranked sequence ranks no later than any of its rows. */
  lemma HeadRanksFirst(s: seq<Row>, y: Row)
    requires Sorted(s) && y in multiset(s)
    ensures RankedBefore(s[0], y)
  {
    var k :| 0 <= k < |s| && s[k] == y;
    if k == 0 { NameAtMostTotal(y.name, y.name); }
  }

  /** Inserts `x` into the ranked `s` before the first row it ranks before. */
  function Insert(x: Row, s: seq<Row>): (r: seq<Row>)
    ensures multiset(r) == multiset(s) + multiset{x}
  {
    if s == [] then [x]
    else if RankedBefore(x, s[0]) then
      assert s == [s[0]] + s[1..];
      [x] + s
    else
      assert s == [s[0]] + s[1..];
      [s[0]] + Insert(x, s[1..])
  }

  lemma {:induction false} InsertKeepsSorted(x: Row, s: seq<Row>)
    requires Sorted(s)
    ensures Sorted(Insert(x, s))
  {
    if s != [] {
      if RankedBefore(x, s[0]) {
        forall y | y in multiset(s) ensures RankedBefore(x, y) {
          HeadRanksFirst(s, y);
          RankedBeforeTransitive(x, s[0], y);
        }
        SortedCons(x, s);
      } else {
        var rest := Insert(x, s[1..]);
        assert Sorted(s[1..]);
        InsertKeepsSorted(x, s[1..]);
        RankedBeforeTotal(x, s[0]);
        assert s == [s[0]] + s[1..];
        forall y | y in multiset(rest) ensures RankedBefore(s[0], y) {
          if y != x {
            HeadRanksFirst(s, y);
          }
        }
        SortedCons(s[0], rest);
      }
    }
  }

  /** `OrderByDescending(totalScore).ThenBy(kills).ThenBy(name)`. */
  function Sort(s: seq<Row>): (r: seq<Row>)
    ensures Sorted(r)
    ensures multiset(r) == multiset(s)
  {
    if s == [] then []
    else
      assert s == [s[0]] + s[1..];
      InsertKeepsSorted(s[0], Sort(s[1..]));
      Insert(s[0], Sort(s[1..]))
  }

  /** A ranked sequence is determined by its multiset of rows: rows that tie on all
      three keys are equal, so the sort's stability never shows. */
  lemma TailMultiset(a: seq<Row>)
    requires a != []
    ensures multiset(a[1..]) == multiset(a) - multiset{a[0]}
  {
    assert a == [a[0]] + a[1..];
  }

  lemma {:induction false} SortedIsUnique(a: seq<Row>, b: seq<Row>)
    requires Sorted(a) && Sorted(b) && multiset(a) == multiset(b)
    ensures a == b
  {
    assert |a| == |multiset(a)| == |multiset(b)| == |b|;
    if a != [] {
      assert a[0] in multiset(a) && b[0] in multiset(b);
      HeadRanksFirst(b, a[0]);
      HeadRanksFirst(a, b[0]);
      RankedBeforeAntisymmetric(a[0], b[0]);
      TailMultiset(a);
      TailMultiset(b);
      assert Sorted(a[1..]) && Sorted(b[1..]);
      SortedIsUnique(a[1..], b[1..]);
    }
  }

  // ---------------------------------------------------------------------------
  // The ranking pipeline of OrderScores

  /** A `KeyValuePair<string, (int kills, int totalScore)>`. */
  datatype Entry = Entry(key: string, value: Tally)

  /** The dictionary's entries in its enumeration order. */
  function Entries(m: map<string, Tally>, order: seq<string>): (r: seq<Entry>)
    requires forall k :: k in order ==> k in m
    ensures |r| == |order|
    ensures forall i :: 0 <= i < |r| ==> r[i] == Entry(order[i], m[order[i]])
  {
    if order == [] then [] else [Entry(order[0], m[order[0]])] + Entries(m, order[1..])
  }

  /** `names.Except(excluded)`, where `seen` holds `excluded` and the names already yielded:
      each name not excluded, once, in order of first occurrence. */
  function Except(names: seq<string>, seen: set<string>): (r: seq<string>)
    ensures Distinct(r)
    ensures forall n :: n in r <==> n in names && n !in seen
  {
    if names == [] then []
    else if names[0] in seen then Except(names[1..], seen)
    else
      var rest := Except(names[1..], seen + {names[0]});
      assert names == [names[0]] + names[1..];
      [names[0]] + rest
  }

  /** The unseen flyweight names, each paired with `(0, 0)`. */
  function Padding(names: seq<string>): (r: seq<Entry>)
    ensures |r| == |names|
    ensures forall i :: 0 <= i < |r| ==> r[i] == Entry(names[i], Unseen)
  {
    if names == [] then [] else [Entry(names[0], Unseen)] + Padding(names[1..])
  }

  /** `killedEnemies.Concat(enemies.Select(e => e.name).Except(killedEnemies.Keys).Select(e => (e, (0, 0))))`. */
  function Padded(m: map<string, Tally>, order: seq<string>, enemies: seq<string>): seq<Entry>
    requires forall k :: k in order ==> k in m
  {
    Entries(m, order) + Padding(Except(enemies, m.Keys))
  }

  /** The `Join` rows one outer entry produces: one per flyweight with its name. */
  function Matches(o: Entry, enemies: seq<string>): (r: seq<Row>)
    ensures forall row :: row in r ==> row == Row(o.key, o.value.kills, o.value.totalScore)
  {
    if enemies == [] then []
    else (if enemies[0] == o.key then [Row(enemies[0], o.value.kills, o.value.totalScore)] else [])
         + Matches(o, enemies[1..])
  }

  /** `outer.Join(enemies, e => e.Key, e => e.name, ...)`: outer order, then inner order. */
  function Join(outer: seq<Entry>, enemies: seq<string>): (r: seq<Row>)
    ensures forall row :: row in r ==> row.name in enemies
  {
    if outer == [] then []
    else
      assert forall row :: row in Matches(outer[0], enemies) ==> row.name in enemies by {
        MatchesComeFromEnemies(outer[0], enemies);
      }
      Matches(outer[0], enemies) + Join(outer[1..], enemies)
  }

  lemma {:induction false} MatchesComeFromEnemies(o: Entry, enemies: seq<string>)
    ensures forall row :: row in Matches(o, enemies) ==> row.name in enemies
  {
    if enemies != [] {
      MatchesComeFromEnemies(o, enemies[1..]);
    }
  }

  /** `Where(e => e.kills > 0)`. */
  function Shown(rows: seq<Row>): (r: seq<Row>)
    ensures forall row :: row in r <==> row in rows && row.kills > 0
  {
    if rows == [] then []
    else
      assert rows == [rows[0]] + rows[1..];
      (if rows[0].kills > 0 then [rows[0]] else []) + Shown(rows[1..])
  }

  /** The lines `OrderScores` shows, as written: the boss line's `Append` builds a new
      sequence that is discarded, so it contributes nothing. */
  function RankingAsWritten(m: map<string, Tally>, order: seq<string>, enemies: seq<string>): (r: seq<Row>)
    requires forall k :: k in order ==> k in m
    ensures Sorted(r)
    ensures forall row :: row in r ==> row.kills > 0 && row.name in enemies
  {
    var rows := Join(Padded(m, order, enemies), enemies);
    var r := Sort(Shown(rows));
    assert forall row :: row in r ==> row in Shown(rows) by {
      forall row | row in r ensures row in Shown(rows) {
        assert row in multiset(r);
      }
    }
    r
  }

  /** The boss line `OrderScores` means to append: present when the boss has kills. */
  function BossRow(m: map<string, Tally>): (r: seq<Row>)
    ensures r != [] <==> BossName in m && m[BossName].kills > 0
    ensures r != [] ==> r == [Row(BossName, m[BossName].kills, m[BossName].totalScore)]
  {
    if BossName in m && m[BossName].kills > 0 then [Row(BossName, m[BossName].kills, m[BossName].totalScore)] else []
  }

  /** The lines `OrderScores` evidently means to show: the joined rows plus the boss line. */
  function Ranking(m: map<string, Tally>, order: seq<string>, enemies: seq<string>): (r: seq<Row>)
    requires forall k :: k in order ==> k in m
    ensures Sorted(r)
    ensures forall row :: row in r ==> row.kills > 0 && (row.name in enemies || row.name == BossName)
    ensures BossName in m && m[BossName].kills > 0 ==>
              Row(BossName, m[BossName].kills, m[BossName].totalScore) in r
  {
    var rows := Join(Padded(m, order, enemies), enemies) + BossRow(m);
    var r := Sort(Shown(rows));
    assert forall row :: row in r ==> row in Shown(rows) by {
      forall row | row in r ensures row in Shown(rows) {
        assert row in multiset(r);
      }
    }
    assert BossName in m && m[BossName].kills > 0 ==>
             Row(BossName, m[BossName].kills, m[BossName].totalScore) in multiset(r);
    r
  }

  // ---------------------------------------------------------------------------
  // What the join computes: one row per flyweight, with that name's tally

  /** The reference definition: for each flyweight name, in order, its name and tally. */
  function PerEnemy(m: map<string, Tally>, enemies: seq<string>): (r: seq<Row>)
    ensures |r| == |enemies|
    ensures forall i :: 0 <= i < |r| ==>
              r[i] == Row(enemies[i], TallyOf(m, enemies[i]).kills, TallyOf(m, enemies[i]).totalScore)
  {
    if enemies == [] then []
    else [Row(enemies[0], TallyOf(m, enemies[0]).kills, TallyOf(m, enemies[0]).totalScore)] + PerEnemy(m, enemies[1..])
  }

  predicate DistinctKeys(outer: seq<Entry>)
  {
    forall i, j :: 0 <= i < j < |outer| ==> outer[i].key != outer[j].key
  }

  predicate HasKey(outer: seq<Entry>, name: string)
  {
    exists i :: 0 <= i < |outer| && outer[i].key == name
  }

  lemma {:induction false} MatchesSplit(o: Entry, e1: seq<string>, e2: seq<string>)
    ensures Matches(o, e1 + e2) == Matches(o, e1) + Matches(o, e2)
  {
    if e1 == [] {
      assert e1 + e2 == e2;
    } else {
      assert (e1 + e2)[0] == e1[0];
      assert (e1 + e2)[1..] == e1[1..] + e2;
      MatchesSplit(o, e1[1..], e2);
    }
  }

  lemma {:induction false} JoinSplit(outer: seq<Entry>, e1: seq<string>, e2: seq<string>)
    ensures multiset(Join(outer, e1 + e2)) == multiset(Join(outer, e1)) + multiset(Join(outer, e2))
  {
    if outer != [] {
      MatchesSplit(outer[0], e1, e2);
      JoinSplit(outer[1..], e1, e2);
      calc {
        multiset(Join(outer, e1 + e2));
        multiset(Matches(outer[0], e1) + Matches(outer[0], e2) + Join(outer[1..], e1 + e2));
        multiset(Matches(outer[0], e1)) + multiset(Matches(outer[0], e2))
          + multiset(Join(outer[1..], e1)) + multiset(Join(outer[1..], e2));
        multiset(Join(outer, e1)) + multiset(Join(outer, e2));
      }
    }
  }

  /** The rows one outer entry produces for a single flyweight name. */
  lemma MatchesOneName(o: Entry, name: string)
    ensures Matches(o, [name]) == if o.key == name then [Row(name, o.value.kills, o.value.totalScore)] else []
  {
    assert [name][1..] == [];
  }

  lemma {:induction false} JoinWithoutKey(outer: seq<Entry>, name: string)
    requires !HasKey(outer, name)
    ensures Join(outer, [name]) == []
  {
    if outer != [] {
      assert outer[0].key != name;
      MatchesOneName(outer[0], name);
      forall i | 0 <= i < |outer[1..]| ensures outer[1..][i].key != name {
        assert outer[1..][i] == outer[i + 1];
      }
      JoinWithoutKey(outer[1..], name);
    }
  }

  lemma {:induction false} JoinOneName(m: map<string, Tally>, outer: seq<Entry>, name: string)
    requires DistinctKeys(outer) && HasKey(outer, name)
    requires forall o :: o in outer ==> o.value == TallyOf(m, o.key)
    ensures Join(outer, [name]) == [Row(name, TallyOf(m, name).kills, TallyOf(m, name).totalScore)]
  {
    assert outer[0] in outer;
    MatchesOneName(outer[0], name);
    if outer[0].key == name {
      forall i | 0 <= i < |outer[1..]| ensures outer[1..][i].key != name {
        assert outer[1..][i] == outer[i + 1];
      }
      JoinWithoutKey(outer[1..], name);
    } else {
      assert HasKey(outer[1..], name) by {
        var i :| 0 <= i < |outer| && outer[i].key == name;
        assert outer[1..][i - 1].key == name;
      }
      assert DistinctKeys(outer[1..]) by {
        forall p, q | 0 <= p < q < |outer[1..]| ensures outer[1..][p].key != outer[1..][q].key {
          assert outer[1..][p] == outer[p + 1] && outer[1..][q] == outer[q + 1];
        }
      }
      forall o | o in outer[1..] ensures o.value == TallyOf(m, o.key) {
        assert o in outer;
      }
      JoinOneName(m, outer[1..], name);
    }
  }

  lemma {:induction false} JoinWithNoEnemies(outer: seq<Entry>)
    ensures Join(outer, []) == []
  {
    if outer != [] {
      JoinWithNoEnemies(outer[1..]);
    }
  }

  /** When every flyweight name is the key of exactly one outer entry carrying that
      name's tally, the join yields the per-flyweight rows (in some order). */
  lemma {:induction false} JoinIsPerEnemy(m: map<string, Tally>, outer: seq<Entry>, enemies: seq<string>)
    requires DistinctKeys(outer)
    requires forall o :: o in outer ==> o.value == TallyOf(m, o.key)
    requires forall n :: n in enemies ==> HasKey(outer, n)
    ensures multiset(Join(outer, enemies)) == multiset(PerEnemy(m, enemies))
  {
    if enemies == [] {
      assert Join(outer, []) == [] by { JoinWithNoEnemies(outer); }
    } else {
      var e, rest := enemies[0], enemies[1..];
      assert enemies == [e] + rest;
      assert e in enemies;
      forall n | n in rest ensures HasKey(outer, n) {
        assert n in enemies;
      }
      JoinSplit(outer, [e], rest);
      JoinOneName(m, outer, e);
      JoinIsPerEnemy(m, outer, rest);
      calc {
        multiset(Join(outer, enemies));
        multiset(Join(outer, [e])) + multiset(Join(outer, rest));
        multiset([Row(e, TallyOf(m, e).kills, TallyOf(m, e).totalScore)]) + multiset(PerEnemy(m, rest));
        multiset([Row(e, TallyOf(m, e).kills, TallyOf(m, e).totalScore)] + PerEnemy(m, rest));
      }
    }
  }

  /** The padded sequence is the dictionary's entries followed by the unseen names with `(0, 0)`. */
  lemma PaddedLayout(m: map<string, Tally>, order: seq<string>, enemies: seq<string>)
    requires forall k :: k in order ==> k in m
    ensures |Padded(m, order, enemies)| == |order| + |Except(enemies, m.Keys)|
    ensures forall i :: 0 <= i < |order| ==> Padded(m, order, enemies)[i] == Entry(order[i], m[order[i]])
    ensures forall i :: 0 <= i < |Except(enemies, m.Keys)| ==>
              Padded(m, order, enemies)[|order| + i] == Entry(Except(enemies, m.Keys)[i], Unseen)
  {
  }

  lemma PaddedHasDistinctKeys(m: map<string, Tally>, order: seq<string>, enemies: seq<string>)
    requires EnumeratesKeys(order, m)
    ensures DistinctKeys(Padded(m, order, enemies))
  {
    var unseen := Except(enemies, m.Keys);
    var outer := Padded(m, order, enemies);
    PaddedLayout(m, order, enemies);
    forall i, j | 0 <= i < j < |outer| ensures outer[i].key != outer[j].key {
      if j < |order| {
      } else if i < |order| {
        assert outer[i].key in m;
        assert outer[j].key == unseen[j - |order|];
        assert unseen[j - |order|] in unseen;
      } else {
        assert outer[i].key == unseen[i - |order|] && outer[j].key == unseen[j - |order|];
      }
    }
  }

  lemma PaddedCarriesTallies(m: map<string, Tally>, order: seq<string>, enemies: seq<string>)
    requires EnumeratesKeys(order, m)
    ensures forall o :: o in Padded(m, order, enemies) ==> o.value == TallyOf(m, o.key)
  {
    var unseen := Except(enemies, m.Keys);
    var outer := Padded(m, order, enemies);
    PaddedLayout(m, order, enemies);
    forall o | o in outer ensures o.value == TallyOf(m, o.key) {
      var i :| 0 <= i < |outer| && outer[i] == o;
      if i >= |order| {
        assert outer[|order| + (i - |order|)] == o;
        assert unseen[i - |order|] in unseen;
      }
    }
  }

  lemma PaddedCoversEnemies(m: map<string, Tally>, order: seq<string>, enemies: seq<string>)
    requires EnumeratesKeys(order, m)
    ensures forall n :: n in enemies ==> HasKey(Padded(m, order, enemies), n)
  {
    var unseen := Except(enemies, m.Keys);
    var outer := Padded(m, order, enemies);
    PaddedLayout(m, order, enemies);
    forall n | n in enemies ensures HasKey(outer, n) {
      if n in m {
        var i :| 0 <= i < |order| && order[i] == n;
        assert outer[i].key == n;
      } else {
        var i :| 0 <= i < |unseen| && unseen[i] == n;
        assert outer[|order| + i].key == n;
      }
    }
  }

  /** The padded dictionary has one entry per killed name and per unseen flyweight name. */
  lemma PaddedIsWellFormed(m: map<string, Tally>, order: seq<string>, enemies: seq<string>)
    requires EnumeratesKeys(order, m)
    ensures DistinctKeys(Padded(m, order, enemies))
    ensures forall o :: o in Padded(m, order, enemies) ==> o.value == TallyOf(m, o.key)
    ensures forall n :: n in enemies ==> HasKey(Padded(m, order, enemies), n)
  {
    PaddedHasDistinctKeys(m, order, enemies);
    PaddedCarriesTallies(m, order, enemies);
    PaddedCoversEnemies(m, order, enemies);
  }

  lemma {:induction false} ShownKeepsMultiset(a: seq<Row>, b: seq<Row>)
    requires multiset(a) == multiset(b)
    ensures multiset(Shown(a)) == multiset(Shown(b))
  {
    ShownCounts(a);
    ShownCounts(b);
    assert forall row :: multiset(Shown(a))[row] == multiset(Shown(b))[row];
  }

  lemma {:induction false} ShownCounts(a: seq<Row>)
    ensures forall row :: multiset(Shown(a))[row] == if row.kills > 0 then multiset(a)[row] else 0
  {
    if a != [] {
      ShownCounts(a[1..]);
      assert a == [a[0]] + a[1..];
    }
  }

  /** The ranking shows one line per flyweight whose name has kills, with that name's
      tally, ranked; which order the dictionary enumerates its keys in does not matter. */
  lemma RankingIsPerEnemy(m: map<string, Tally>, order: seq<string>, enemies: seq<string>)
    requires EnumeratesKeys(order, m)
    ensures RankingAsWritten(m, order, enemies) == Sort(Shown(PerEnemy(m, enemies)))
  {
    PaddedIsWellFormed(m, order, enemies);
    JoinIsPerEnemy(m, Padded(m, order, enemies), enemies);
    ShownKeepsMultiset(Join(Padded(m, order, enemies), enemies), PerEnemy(m, enemies));
    SortedIsUnique(RankingAsWritten(m, order, enemies), Sort(Shown(PerEnemy(m, enemies))));
  }

  /** The corrected display shows one line per flyweight name with kills, with that
      name's tally, and the boss line when the boss has kills, ranked. */
  lemma RankingIsPerEnemyWithBoss(m: map<string, Tally>, order: seq<string>, enemies: seq<string>)
    requires EnumeratesKeys(order, m)
    ensures Ranking(m, order, enemies) == Sort(Shown(PerEnemy(m, enemies) + BossRow(m)))
  {
    var joined := Join(Padded(m, order, enemies), enemies);
    PaddedIsWellFormed(m, order, enemies);
    JoinIsPerEnemy(m, Padded(m, order, enemies), enemies);
    assert multiset(joined + BossRow(m)) == multiset(PerEnemy(m, enemies) + BossRow(m));
    ShownKeepsMultiset(joined + BossRow(m), PerEnemy(m, enemies) + BossRow(m));
    SortedIsUnique(Ranking(m, order, enemies), Sort(Shown(PerEnemy(m, enemies) + BossRow(m))));
  }

  lemma RankingIndependentOfOrder(m: map<string, Tally>, a: seq<string>, b: seq<string>, enemies: seq<string>)
    requires EnumeratesKeys(a, m) && EnumeratesKeys(b, m)
    ensures RankingAsWritten(m, a, enemies) == RankingAsWritten(m, b, enemies)
    ensures Ranking(m, a, enemies) == Ranking(m, b, enemies)
  {
    RankingIsPerEnemy(m, a, enemies);
    RankingIsPerEnemy(m, b, enemies);
    PaddedIsWellFormed(m, a, enemies);
    PaddedIsWellFormed(m, b, enemies);
    JoinIsPerEnemy(m, Padded(m, a, enemies), enemies);
    JoinIsPerEnemy(m, Padded(m, b, enemies), enemies);
    var ra := Join(Padded(m, a, enemies), enemies) + BossRow(m);
    var rb := Join(Padded(m, b, enemies), enemies) + BossRow(m);
    ShownKeepsMultiset(ra, rb);
    SortedIsUnique(Ranking(m, a, enemies), Ranking(m, b, enemies));
  }

  /** As written, a boss with kills never gets a line of its own, though its kills
      count in the grand total. */
  lemma BossLineIsLostAsWritten(m: map<string, Tally>, order: seq<string>, enemies: seq<string>)
    requires forall k :: k in order ==> k in m
    requires BossName !in enemies
    ensures forall row :: row in RankingAsWritten(m, order, enemies) ==> row.name != BossName
  {
  }

  lemma {:induction false} ShownSplit(a: seq<Row>, b: seq<Row>)
    ensures Shown(a + b) == Shown(a) + Shown(b)
  {
    if a == [] {
      assert a + b == b;
    } else {
      assert (a + b)[0] == a[0];
      assert (a + b)[1..] == a[1..] + b;
      ShownSplit(a[1..], b);
    }
  }

  /** With no kill of any flyweight, the joined rows show nothing. */
  lemma NoFlyweightKillShowsNothing(m: map<string, Tally>, order: seq<string>, enemies: seq<string>)
    requires EnumeratesKeys(order, m)
    requires forall n :: n in enemies ==> n !in m
    ensures Shown(Join(Padded(m, order, enemies), enemies)) == []
  {
    var joined := Join(Padded(m, order, enemies), enemies);
    PaddedIsWellFormed(m, order, enemies);
    JoinIsPerEnemy(m, Padded(m, order, enemies), enemies);
    ShownKeepsMultiset(joined, PerEnemy(m, enemies));
    ShownCounts(PerEnemy(m, enemies));
    var per := PerEnemy(m, enemies);
    forall i | 0 <= i < |enemies| ensures per[i].kills == 0 {
      assert enemies[i] in enemies;
    }
    forall row ensures multiset(Shown(per))[row] == 0 {
      if row.kills > 0 {
        assert row !in per;
      }
    }
    assert multiset(Shown(joined)) == multiset{};
  }

  /** A concrete case: one boss kill worth 1000 and no other kill. As written the
      ranking is empty. */
  lemma BossLineIsLostExample()
    ensures RankingAsWritten(map[BossName := Tally(1, 1000)], [BossName], ["Simple", "Bomber"]) == []
  {
    var m := map[BossName := Tally(1, 1000)];
    var order, enemies := [BossName], ["Simple", "Bomber"];
    assert BossName != "Simple" && BossName != "Bomber";
    NoFlyweightKillShowsNothing(m, order, enemies);
  }

  /** The same case with the boss line appended as intended: the ranking holds it. */
  lemma BossLineIsShownExample()
    ensures Ranking(map[BossName := Tally(1, 1000)], [BossName], ["Simple", "Bomber"]) == [Row(BossName, 1, 1000)]
  {
    var m := map[BossName := Tally(1, 1000)];
    var order, enemies := [BossName], ["Simple", "Bomber"];
    var boss := Row(BossName, 1, 1000);
    assert BossName != "Simple" && BossName != "Bomber";
    NoFlyweightKillShowsNothing(m, order, enemies);
    var joined := Join(Padded(m, order, enemies), enemies);
    assert BossRow(m) == [boss];
    ShownSplit(joined, [boss]);
    assert [boss][1..] == [];
    assert Shown(joined + BossRow(m)) == [boss];
    assert Sort([boss]) == [boss] by {
      assert [boss][1..] == [];
    }
  }

  /** One more event adds its name to the names seen and its score to the sum. */
  lemma EventsAppended(events: seq<EnemyDestroyedEvent>, e: EnemyDestroyedEvent)
    ensures Names(events + [e]) == Names(events) + {e.name}
    ensures ScoreSum(events + [e]) == ScoreSum(events) + e.score
  {
    var after := events + [e];
    assert after[..|after| - 1] == events;
    forall n | n in Names(after) ensures n in Names(events) + {e.name} {
      var i :| 0 <= i < |after| && after[i].name == n;
      if i < |events| { assert events[i].name == n; }
    }
    forall n | n in Names(events) ensures n in Names(after) {
      var i :| 0 <= i < |events| && events[i].name == n;
      assert after[i].name == n;
    }
    assert after[|events|].name == e.name;
  }

  /** The scoreboard's invariant: `order` enumerates the dictionary, which holds a
      tally for exactly the names of the recorded events, each with a kill, and
      whose grand totals are the number of events and the sum of their scores. */
  ghost predicate Consistent(m: map<string, Tally>, order: seq<string>, events: seq<EnemyDestroyedEvent>)
  {
    && EnumeratesKeys(order, m)
    && m.Keys == Names(events)
    && (forall k :: k in m ==> m[k].kills > 0)
    && Totals(m, order) == Tally(|events|, ScoreSum(events))
  }

  /** Recording an event keeps the invariant. */
  lemma RecordKeepsConsistent(m: map<string, Tally>, order: seq<string>, events: seq<EnemyDestroyedEvent>,
                              e: EnemyDestroyedEvent,
                              r: map<string, Tally>, order': seq<string>, events': seq<EnemyDestroyedEvent>)
    requires Consistent(m, order, events)
    requires r == Recorded(m, e.name, e.score)
    requires order' == if e.name in m then order else order + [e.name]
    requires events' == events + [e]
    ensures Consistent(r, order', events')
  {
    EventsAppended(events, e);
    var total := Tally(|events + [e]|, ScoreSum(events + [e]));
    assert total == Add(Totals(m, order), Tally(1, e.score));
    if e.name in m {
      TotalsAfterRecordKnown(m, order, e.name, e.score);
      assert Totals(r, order) == total;
    } else {
      TotalsAfterRecordNew(m, order, e.name, e.score);
      assert Totals(r, order + [e.name]) == total;
    }
    assert EnumeratesKeys(order', r);
    assert r.Keys == Names(events + [e]);
    assert forall k :: k in r ==> r[k].kills > 0 by {
      forall k | k in r ensures r[k].kills > 0 {
        if k != e.name { assert r[k].kills >= m[k].kills; }
      }
    }
  }

  // ---------------------------------------------------------------------------
  // The scoreboard object

  class Scoreboard {
    /** The names of the enemy flyweights the level can spawn. */
    const enemies: seq<string>

    /** Kills and total score per enemy name. */
    var killedEnemies: map<string, Tally>

    /** The order in which `killedEnemies` enumerates its keys: first insertion first. */
    var order: seq<string>

    /** Every enemy-destroyed event handled so far. */
    ghost var events: seq<EnemyDestroyedEvent>

    ghost predicate Valid()
      reads this
    {
      Consistent(killedEnemies, order, events)
    }

    constructor (enemies: seq<string>)
      ensures Valid() && this.enemies == enemies
      ensures killedEnemies == map[] && events == []
    {
      this.enemies := enemies;
      killedEnemies := map[];
      order := [];
      events := [];
      assert Names([]) == {};
    }

    /** The enemy-destroyed handler: one more kill and `e.score` more score for `e.name`. */
    method RecordKill(e: EnemyDestroyedEvent)
      requires Valid()
      modifies this
      ensures Valid()
      ensures killedEnemies == Recorded(old(killedEnemies), e.name, e.score)
      ensures order == if e.name in old(killedEnemies) then old(order) else old(order) + [e.name]
      ensures events == old(events) + [e]
    {
      ghost var m, o, before := killedEnemies, order, events;
      var tuple := TallyOf(killedEnemies, e.name);
      if e.name !in killedEnemies {
        order := order + [e.name];
      }
      var updated := killedEnemies[e.name := Tally(tuple.kills + 1, tuple.totalScore + e.score)];
      assert updated == Recorded(m, e.name, e.score);
      killedEnemies := updated;
      events := events + [e];

      RecordKeepsConsistent(m, o, before, e, killedEnemies, order, events);
    }

    /** The ranked lines and grand totals the scoreboard displays. */
    method OrderScores() returns (board: Board)
      requires Valid()
      ensures board.rows == RankingAsWritten(killedEnemies, order, enemies)
      ensures board.total == Tally(|events|, ScoreSum(events))
    {
      board := Board(RankingAsWritten(killedEnemies, order, enemies), Totals(killedEnemies, order));
    }
  }
}
