/** The backend's shopping list: the ingredients of the chosen recipes are
    summed per (name, unit) pair and listed sorted by name. Rows are kept
    in the order their pair first appears, as a Python `dict` keeps its
    keys, and the sort is stable. The recipe query is a parameter. */
module Shopping {
  import opened Text

  /** An ingredient as stored in a recipe: `unit` and `qty` may be absent. */
  datatype Ingredient = Ingredient(name: string, unit: Option<string>, qty: Option<real>)

  /** The pair the list aggregates on. */
  datatype Key = Key(name: string, unit: string)

  /** One row of the answer. */
  datatype Row = Row(name: string, unit: string, qty: real)
  {
    function KeyOf(): Key { Key(name, unit) }
  }

  /** `(ing["name"], ing.get("unit", ""))`. */
  function IngredientKey(ing: Ingredient): Key
  {
    Key(ing.name, if ing.unit.Some? then ing.unit.value else "")
  }

  /** `float(ing.get("qty", 0))`. */
  function IngredientQty(ing: Ingredient): real
  {
    if ing.qty.Some? then ing.qty.value else 0.0
  }

  /** The ingredient lists of the fetched recipes, one after the other. */
  function Flatten(rows: seq<seq<Ingredient>>): (flat: seq<Ingredient>)
    ensures forall r, ing :: r in rows && ing in r ==> ing in flat
  {
    if |rows| == 0 then [] else rows[0] + Flatten(rows[1..])
  }

  // ---------------------------------------------------------------------
  // What the answer must say

  /** Whether some ingredient has the pair. */
  predicate Occurs(ings: seq<Ingredient>, k: Key)
  {
    exists i :: 0 <= i < |ings| && IngredientKey(ings[i]) == k
  }

  /** The total quantity of the pair over the ingredients, absent
      quantities counting 0. */
  function SumFor(ings: seq<Ingredient>, k: Key): real
  {
    if |ings| == 0 then 0.0
    else
      var last := ings[|ings| - 1];
      SumFor(ings[..|ings| - 1], k) + if IngredientKey(last) == k then IngredientQty(last) else 0.0
  }

  /** How many rows carry the pair. */
  function CountKey(s: seq<Row>, k: Key): nat
  {
    if |s| == 0 then 0 else (if s[0].KeyOf() == k then 1 else 0) + CountKey(s[1..], k)
  }

  /** The quantity the rows give the pair. */
  function QtyIn(s: seq<Row>, k: Key): real
  {
    if |s| == 0 then 0.0 else (if s[0].KeyOf() == k then s[0].qty else 0.0) + QtyIn(s[1..], k)
  }

  /** No two rows share a pair. */
  ghost predicate DistinctKeys(s: seq<Row>)
  {
    forall k :: CountKey(s, k) <= 1
  }

  /** The rows carrying a given name, in order. */
  function Named(s: seq<Row>, name: string): (r: seq<Row>)
    ensures forall x :: x in r <==> x in s && x.name == name
  {
    if |s| == 0 then [] else (if s[0].name == name then [s[0]] else []) + Named(s[1..], name)
  }

  // ---------------------------------------------------------------------
  // Aggregation

  /** `acc[key] = acc.get(key, 0.0) + qty`: the pair's row grows, or a new
      row goes at the end. */
  function Add(acc: seq<Row>, k: Key, q: real): (r: seq<Row>)
    ensures CountKey(r, k) == if CountKey(acc, k) == 0 then 1 else CountKey(acc, k)
    ensures forall k' :: k' != k ==> CountKey(r, k') == CountKey(acc, k')
    ensures forall k' :: QtyIn(r, k') == QtyIn(acc, k') + if k' == k then q else 0.0
  {
    if |acc| == 0 then [Row(k.name, k.unit, q)]
    else if acc[0].KeyOf() == k then [acc[0].(qty := acc[0].qty + q)] + acc[1..]
    else [acc[0]] + Add(acc[1..], k, q)
  }

  /** The `acc` loop over all the ingredients. */
  function Accumulate(ings: seq<Ingredient>): (acc: seq<Row>)
  {
    if |ings| == 0 then []
    else Add(Accumulate(ings[..|ings| - 1]), IngredientKey(ings[|ings| - 1]), IngredientQty(ings[|ings| - 1]))
  }

  /** The accumulated rows hold each pair that occurs exactly once, no
      other pair, and each with its total quantity. */
  lemma {:induction false} AccumulateSums(ings: seq<Ingredient>)
    ensures forall k :: CountKey(Accumulate(ings), k) == if Occurs(ings, k) then 1 else 0
    ensures forall k :: QtyIn(Accumulate(ings), k) == SumFor(ings, k)
    decreases |ings|
  {
    if |ings| > 0 {
      var init := ings[..|ings| - 1];
      AccumulateSums(init);
      forall k ensures Occurs(ings, k) <==> Occurs(init, k) || IngredientKey(ings[|ings| - 1]) == k {
        if Occurs(init, k) {
          var i :| 0 <= i < |init| && IngredientKey(init[i]) == k;
          assert ings[i] == init[i];
        }
      }
    }
  }

  /** With distinct pairs, a row's quantity is the quantity of its pair. */
  lemma {:induction false} RowQty(s: seq<Row>, i: nat)
    requires DistinctKeys(s) && i < |s|
    ensures QtyIn(s, s[i].KeyOf()) == s[i].qty
    decreases |s|
  {
    var k := s[i].KeyOf();
    assert CountKey(s[1..], k) == CountKey(s, k) - (if s[0].KeyOf() == k then 1 else 0);
    assert DistinctKeys(s[1..]) by {
      forall k' ensures CountKey(s[1..], k') <= 1 {
        assert CountKey(s, k') <= 1;
      }
    }
    if i == 0 {
      NoRowsNoQty(s[1..], k);
    } else {
      assert s[1..][i - 1] == s[i];
      KeyCounted(s[1..], i - 1);
      RowQty(s[1..], i - 1);
    }
  }

  lemma {:induction false} KeyCounted(s: seq<Row>, i: nat)
    requires i < |s|
    ensures CountKey(s, s[i].KeyOf()) >= 1
    decreases |s|
  {
    if i > 0 {
      assert s[1..][i - 1] == s[i];
      KeyCounted(s[1..], i - 1);
    }
  }

  lemma {:induction false} NoRowsNoQty(s: seq<Row>, k: Key)
    requires CountKey(s, k) == 0
    ensures QtyIn(s, k) == 0.0
    decreases |s|
  {
    if |s| > 0 {
      NoRowsNoQty(s[1..], k);
    }
  }

  /** Where the pair first appears among the ingredients, or the length
      when it does not. */
  function FirstIndex(ings: seq<Ingredient>, k: Key): nat
  {
    if |ings| == 0 then 0
    else if IngredientKey(ings[0]) == k then 0
    else 1 + FirstIndex(ings[1..], k)
  }

  /** The index found is the first position holding the pair, and the
      length exactly when the pair does not occur. */
  lemma {:induction false} FirstIndexSpec(ings: seq<Ingredient>, k: Key)
    ensures FirstIndex(ings, k) <= |ings|
    ensures FirstIndex(ings, k) < |ings| <==> Occurs(ings, k)
    ensures FirstIndex(ings, k) < |ings| ==> IngredientKey(ings[FirstIndex(ings, k)]) == k
    ensures forall j :: 0 <= j < FirstIndex(ings, k) ==> IngredientKey(ings[j]) != k
    decreases |ings|
  {
    if |ings| > 0 && IngredientKey(ings[0]) != k {
      FirstIndexSpec(ings[1..], k);
      assert forall j :: 1 <= j < |ings| ==> ings[1..][j - 1] == ings[j];
      if Occurs(ings, k) {
        var i :| 0 <= i < |ings| && IngredientKey(ings[i]) == k;
        assert ings[1..][i - 1] == ings[i];
      }
    }
  }

  /** Appending an ingredient does not move the first appearance of a pair
      that already occurs. */
  lemma FirstIndexAppend(init: seq<Ingredient>, last: Ingredient, k: Key)
    requires Occurs(init, k)
    ensures FirstIndex(init + [last], k) == FirstIndex(init, k)
  {
    var ings := init + [last];
    FirstIndexSpec(init, k);
    FirstIndexSpec(ings, k);
    var a := FirstIndex(init, k);
    assert ings[a] == init[a];
    assert forall j :: 0 <= j < |init| ==> ings[j] == init[j];
  }

  /** Adding to a pair that has a row keeps every row's pair in place;
      adding a new pair appends its row. */
  lemma {:induction false} AddKeys(acc: seq<Row>, k: Key, q: real)
    ensures var r := Add(acc, k, q);
      && (CountKey(acc, k) > 0 ==> |r| == |acc|)
      && (CountKey(acc, k) == 0 ==> |r| == |acc| + 1 && r[|acc|].KeyOf() == k)
      && forall i :: 0 <= i < |acc| ==> r[i].KeyOf() == acc[i].KeyOf()
    decreases |acc|
  {
    if |acc| > 0 && acc[0].KeyOf() != k {
      AddKeys(acc[1..], k, q);
      var r, t := Add(acc, k, q), Add(acc[1..], k, q);
      assert r == [acc[0]] + t;
      forall i | 1 <= i < |acc| ensures r[i].KeyOf() == acc[i].KeyOf() {
        assert r[i] == t[i - 1] && acc[i] == acc[1..][i - 1];
      }
    }
  }

  /** The pairs of the rows appear in increasing order of first
      appearance, each among the ingredients. */
  ghost predicate InFirstOrder(acc: seq<Row>, ings: seq<Ingredient>)
  {
    forall i, j :: 0 <= i < j < |acc| ==>
      FirstIndex(ings, acc[i].KeyOf()) < FirstIndex(ings, acc[j].KeyOf()) < |ings|
  }

  /** A row's pair keeps its first appearance when an ingredient is
      appended. */
  lemma FirstIndexKept(prev: seq<Row>, init: seq<Ingredient>, last: Ingredient, i: nat)
    requires forall n :: 0 <= n < |prev| ==> Occurs(init, prev[n].KeyOf())
    requires i < |prev|
    ensures FirstIndex(init + [last], prev[i].KeyOf()) == FirstIndex(init, prev[i].KeyOf()) < |init|
  {
    FirstIndexSpec(init, prev[i].KeyOf());
    FirstIndexAppend(init, last, prev[i].KeyOf());
  }

  /** A pair new with the last ingredient first appears at its position. */
  lemma FirstIndexNew(init: seq<Ingredient>, last: Ingredient)
    requires !Occurs(init, IngredientKey(last))
    ensures FirstIndex(init + [last], IngredientKey(last)) == |init|
  {
    var ings := init + [last];
    FirstIndexSpec(init, IngredientKey(last));
    FirstIndexSpec(ings, IngredientKey(last));
    assert IngredientKey(ings[|init|]) == IngredientKey(last);
    assert forall j :: 0 <= j < |init| ==> ings[j] == init[j];
  }

  /** Rows that keep the pairs of an ordered list, possibly followed by
      one row for the last ingredient's new pair, are ordered by first
      appearance once that ingredient is appended. */
  lemma ExtendOrder(prev: seq<Row>, acc: seq<Row>, init: seq<Ingredient>, last: Ingredient)
    requires InFirstOrder(prev, init)
    requires forall n :: 0 <= n < |prev| ==> Occurs(init, prev[n].KeyOf())
    requires |acc| == |prev| || (|acc| == |prev| + 1 && acc[|prev|].KeyOf() == IngredientKey(last)
                                 && !Occurs(init, IngredientKey(last)))
    requires forall i :: 0 <= i < |prev| ==> acc[i].KeyOf() == prev[i].KeyOf()
    ensures InFirstOrder(acc, init + [last])
  {
    var ings := init + [last];
    forall i | 0 <= i < |prev|
      ensures FirstIndex(ings, prev[i].KeyOf()) == FirstIndex(init, prev[i].KeyOf()) < |init|
    {
      FirstIndexKept(prev, init, last, i);
    }
    if |acc| > |prev| {
      FirstIndexNew(init, last);
    }
  }

  /** Adding the last ingredient's pair keeps the rows in
      first-appearance order. */
  lemma AddKeepsOrder(prev: seq<Row>, init: seq<Ingredient>, last: Ingredient)
    requires InFirstOrder(prev, init)
    requires forall n :: 0 <= n < |prev| ==> Occurs(init, prev[n].KeyOf())
    requires CountKey(prev, IngredientKey(last)) == 0 ==> !Occurs(init, IngredientKey(last))
    ensures InFirstOrder(Add(prev, IngredientKey(last), IngredientQty(last)), init + [last])
  {
    AddKeys(prev, IngredientKey(last), IngredientQty(last));
    ExtendOrder(prev, Add(prev, IngredientKey(last), IngredientQty(last)), init, last);
  }

  /** Every row of the accumulated list carries a pair that occurs. */
  lemma RowsOccur(ings: seq<Ingredient>)
    ensures forall n :: 0 <= n < |Accumulate(ings)| ==> Occurs(ings, Accumulate(ings)[n].KeyOf())
  {
    AccumulateSums(ings);
    var acc := Accumulate(ings);
    forall n | 0 <= n < |acc| ensures Occurs(ings, acc[n].KeyOf()) {
      KeyCounted(acc, n);
    }
  }

  /** The accumulated rows list their pairs in the order the pairs first
      appear among the ingredients, as a Python `dict` keeps its keys. */
  lemma {:induction false} AccumulateOrder(ings: seq<Ingredient>)
    ensures InFirstOrder(Accumulate(ings), ings)
    decreases |ings|
  {
    if |ings| > 0 {
      var init := ings[..|ings| - 1];
      assert ings == init + [ings[|ings| - 1]];
      AccumulateOrder(init);
      AccumulateSums(init);
      RowsOccur(init);
      AddKeepsOrder(Accumulate(init), init, ings[|ings| - 1]);
    }
  }

  lemma TailInFirstOrder(s: seq<Row>, ings: seq<Ingredient>)
    requires |s| > 0 && InFirstOrder(s, ings)
    ensures InFirstOrder(s[1..], ings)
  {
    forall i, j | 0 <= i < j < |s| - 1
      ensures FirstIndex(ings, s[1..][i].KeyOf()) < FirstIndex(ings, s[1..][j].KeyOf()) < |ings|
    {
      assert s[1..][i] == s[i + 1] && s[1..][j] == s[j + 1];
    }
  }

  /** A row heading an ordered list comes before every row picked from
      the rest. */
  lemma HeadFirst(s: seq<Row>, ings: seq<Ingredient>, t: seq<Row>)
    requires |s| > 0 && InFirstOrder(s, ings)
    requires forall x :: x in t ==> x in s[1..]
    ensures forall x :: x in t ==> FirstIndex(ings, s[0].KeyOf()) < FirstIndex(ings, x.KeyOf()) < |ings|
  {
    assert forall n :: 0 <= n < |s| - 1 ==> s[1..][n] == s[n + 1];
  }

  /** A row placed before an ordered list whose pairs all appear later
      keeps the list ordered. */
  lemma ConsInFirstOrder(x: Row, t: seq<Row>, ings: seq<Ingredient>)
    requires InFirstOrder(t, ings)
    requires forall y :: y in t ==> FirstIndex(ings, x.KeyOf()) < FirstIndex(ings, y.KeyOf()) < |ings|
    ensures InFirstOrder([x] + t, ings)
  {
    var r := [x] + t;
    assert forall j :: 1 <= j < |r| ==> r[j] == t[j - 1] && t[j - 1] in t;
  }

  /** Picking the rows of one name keeps first-appearance order. */
  lemma {:induction false} NamedInFirstOrder(s: seq<Row>, ings: seq<Ingredient>, name: string)
    requires InFirstOrder(s, ings)
    ensures InFirstOrder(Named(s, name), ings)
    decreases |s|
  {
    if |s| > 0 {
      var t := Named(s[1..], name);
      TailInFirstOrder(s, ings);
      NamedInFirstOrder(s[1..], ings, name);
      if s[0].name == name {
        HeadFirst(s, ings, t);
        ConsInFirstOrder(s[0], t, ings);
      }
    }
  }

  /** The accumulated rows of every name are in first-appearance order. */
  lemma AccumulateNamedOrder(ings: seq<Ingredient>)
    ensures forall name :: InFirstOrder(Named(Accumulate(ings), name), ings)
  {
    AccumulateOrder(ings);
    forall name ensures InFirstOrder(Named(Accumulate(ings), name), ings) {
      NamedInFirstOrder(Accumulate(ings), ings, name);
    }
  }

  // ---------------------------------------------------------------------
  // Sorting by name

  /** Python's `<` on strings: code point by code point, a proper prefix
      first. */
  predicate Less(a: string, b: string)
  {
    if |a| == 0 then |b| > 0
    else if |b| == 0 then false
    else if a[0] != b[0] then a[0] < b[0]
    else Less(a[1..], b[1..])
  }

  lemma {:induction false} LessIrreflexive(a: string)
    ensures !Less(a, a)
    decreases |a|
  {
    if |a| > 0 {
      LessIrreflexive(a[1..]);
    }
  }

  lemma {:induction false} LessTransitive(a: string, b: string, c: string)
    requires Less(a, b) && Less(b, c)
    ensures Less(a, c)
    decreases |a|
  {
    if |a| > 0 && a[0] == b[0] && b[0] == c[0] {
      LessTransitive(a[1..], b[1..], c[1..]);
    }
  }

  lemma {:induction false} LessTotal(a: string, b: string)
    requires a != b
    ensures Less(a, b) || Less(b, a)
    decreases |a|
  {
    if |a| > 0 && |b| > 0 && a[0] == b[0] {
      assert a == [a[0]] + a[1..] && b == [b[0]] + b[1..];
      LessTotal(a[1..], b[1..]);
    }
  }

  /** `a` sorts no later than `b`. */
  predicate NotAfter(a: string, b: string)
  {
    !Less(b, a)
  }

  predicate SortedByName(s: seq<Row>)
  {
    forall i, j :: 0 <= i < j < |s| ==> NotAfter(s[i].name, s[j].name)
  }

  lemma NotAfterTransitive(a: string, b: string, c: string)
    requires NotAfter(a, b) && NotAfter(b, c)
    ensures NotAfter(a, c)
  {
    if a != b {
      LessTotal(a, b);
      if b != c {
        LessTotal(b, c);
        LessTransitive(a, b, c);
      }
      LessNotLess(a, c);
    }
  }

  lemma LessNotLess(a: string, b: string)
    requires Less(a, b)
    ensures !Less(b, a)
  {
    if Less(b, a) {
      LessTransitive(a, b, a);
      LessIrreflexive(a);
    }
  }

  /** Insertion into a sorted list, before the first row whose name does
      not sort before the new one. */
  function Insert(s: seq<Row>, x: Row): (r: seq<Row>)
    ensures |r| == |s| + 1
    ensures forall y :: y in r <==> y == x || y in s
    ensures forall k :: CountKey(r, k) == CountKey(s, k) + if x.KeyOf() == k then 1 else 0
    ensures forall k :: QtyIn(r, k) == QtyIn(s, k) + if x.KeyOf() == k then x.qty else 0.0
  {
    if |s| == 0 then [x]
    else if NotAfter(x.name, s[0].name) then [x] + s
    else [s[0]] + Insert(s[1..], x)
  }

  lemma {:induction false} InsertSorted(s: seq<Row>, x: Row)
    requires SortedByName(s)
    ensures SortedByName(Insert(s, x))
    decreases |s|
  {
    var r := Insert(s, x);
    if |s| == 0 {
    } else if NotAfter(x.name, s[0].name) {
      forall j | 1 <= j < |r| ensures NotAfter(x.name, r[j].name) {
        assert r[j] == s[j - 1];
        LessIrreflexive(s[0].name);
        NotAfterTransitive(x.name, s[0].name, s[j - 1].name);
      }
    } else {
      var t := Insert(s[1..], x);
      assert SortedByName(s[1..]) by {
        forall i, j | 0 <= i < j < |s| - 1 ensures NotAfter(s[1..][i].name, s[1..][j].name) {
          assert s[1..][i] == s[i + 1] && s[1..][j] == s[j + 1];
        }
      }
      InsertSorted(s[1..], x);
      LessNotLess(s[0].name, x.name);
      forall j | 0 <= j < |t| ensures NotAfter(s[0].name, t[j].name) {
        assert t[j] in t;
      }
      assert r == [s[0]] + t;
    }
  }

  /** The inserted row goes before every row of its own name. */
  lemma {:induction false} InsertNamed(s: seq<Row>, x: Row, name: string)
    ensures Named(Insert(s, x), name) == (if x.name == name then [x] else []) + Named(s, name)
    decreases |s|
  {
    if |s| > 0 && !NotAfter(x.name, s[0].name) {
      InsertNamed(s[1..], x, name);
      LessIrreflexive(s[0].name);
      assert Insert(s, x) == [s[0]] + Insert(s[1..], x);
    }
  }

  /** `out.sort(key=lambda x: x.name)`, as insertion of each row, last
      first, into the sorted rest. */
  function SortByName(s: seq<Row>): (r: seq<Row>)
    ensures |r| == |s|
    ensures forall k :: CountKey(r, k) == CountKey(s, k)
    ensures forall k :: QtyIn(r, k) == QtyIn(s, k)
  {
    if |s| == 0 then [] else Insert(SortByName(s[1..]), s[0])
  }

  /** The sort orders by name and is stable: the rows of each name keep
      their order. */
  lemma {:induction false} SortByNameSpec(s: seq<Row>)
    ensures SortedByName(SortByName(s))
    ensures forall name :: Named(SortByName(s), name) == Named(s, name)
    decreases |s|
  {
    if |s| > 0 {
      SortByNameSpec(s[1..]);
      InsertSorted(SortByName(s[1..]), s[0]);
      forall name ensures Named(SortByName(s), name) == Named(s, name) {
        InsertNamed(SortByName(s[1..]), s[0], name);
      }
    }
  }

  // ---------------------------------------------------------------------
  // The endpoint

  /** `shopping_list(req)` with `rows` the ingredient lists of the recipes
      the query returned: nothing for no recipe ids; otherwise one row per
      pair that occurs, holding its total quantity, sorted by name, the
      rows of one name in the order their pairs first appear. */
  function ShoppingList(recipeIds: seq<int>, rows: seq<seq<Ingredient>>): (r: seq<Row>)
    ensures |recipeIds| == 0 ==> r == []
    ensures |recipeIds| > 0 ==>
      var flat := Flatten(rows);
      && SortedByName(r)
      && DistinctKeys(r)
      && (forall k :: CountKey(r, k) > 0 <==> Occurs(flat, k))
      && (forall k :: QtyIn(r, k) == SumFor(flat, k))
      && (forall name :: Named(r, name) == Named(Accumulate(flat), name))
      && (forall name :: InFirstOrder(Named(r, name), flat))
  {
    if |recipeIds| == 0 then []
    else
      var acc := Accumulate(Flatten(rows));
      AccumulateSums(Flatten(rows));
      AccumulateNamedOrder(Flatten(rows));
      SortByNameSpec(acc);
      SortByName(acc)
  }

  /** Each row of a non-empty answer carries the total of its own pair. */
  lemma RowIsTotal(recipeIds: seq<int>, rows: seq<seq<Ingredient>>, i: nat)
    requires |recipeIds| > 0 && i < |ShoppingList(recipeIds, rows)|
    ensures var r := ShoppingList(recipeIds, rows);
      r[i].qty == SumFor(Flatten(rows), r[i].KeyOf())
  {
    RowQty(ShoppingList(recipeIds, rows), i);
  }
}
