/**
  The checklist's records and the list transformations behind the event
  handlers of the `App` component, each as a function from the old list to
  the new one, with the properties they promise.
*/
module Items {
  import opened Sorting

  /** The quantity a record stores is whatever the quantity select held when
      the record was added: the number 1 until the select is first changed,
      and from then on the option's value, which the change handler stores as
      the string it reads from the event. */
  datatype Quantity = NumberValue(n: int) | StringValue(s: string)

  datatype Item = Item(id: string, quantity: Quantity, text: string, checked: bool)

  // ---------------------------------------------------------------- ids

  function Digit(d: nat): (c: char)
    requires d < 10
    ensures '0' <= c <= '9'
  {
    (48 + d) as char
  }

  /** The decimal digits of `n`, as a template literal renders an integral
      number. */
  function Decimal(n: nat): (r: string)
    ensures 1 <= |r|
    ensures |r| == 1 <==> n < 10
    ensures forall k :: 0 <= k < |r| ==> '0' <= r[k] <= '9'
    decreases n
  {
    if n < 10 then [Digit(n)] else Decimal(n / 10) + [Digit(n % 10)]
  }

  /** Distinct numbers have distinct decimal renderings. */
  lemma {:induction false} DecimalDistinct(a: nat, b: nat)
    requires a != b
    ensures Decimal(a) != Decimal(b)
    decreases a + b
  {
    if a >= 10 && b >= 10 {
      var da, db := Decimal(a / 10), Decimal(b / 10);
      assert Decimal(a) == da + [Digit(a % 10)];
      assert Decimal(b) == db + [Digit(b % 10)];
      if a % 10 == b % 10 {
        DecimalDistinct(a / 10, b / 10);
        if |da| == |db| {
          assert Decimal(a)[..|da|] == da;
          assert Decimal(b)[..|db|] == db;
        }
      } else {
        assert Decimal(a)[|da|] != Decimal(b)[|db|] || |da| != |db|;
      }
    } else if a < 10 && b < 10 {
      assert Decimal(a)[0] != Decimal(b)[0];
    }
  }

  /** The id a record gets when it is added at time `now` (milliseconds, as
      the clock reports them). */
  function ItemId(now: nat): (id: string)
    ensures 5 < |id| && id[..5] == "item-"
    ensures id[5..] == Decimal(now)
  {
    "item-" + Decimal(now)
  }

  /** Records added at different times get different ids. */
  lemma ItemIdDistinct(a: nat, b: nat)
    requires a != b
    ensures ItemId(a) != ItemId(b)
  {
    DecimalDistinct(a, b);
    assert ItemId(a)[5..] == Decimal(a);
    assert ItemId(b)[5..] == Decimal(b);
  }

  /** No two records of `s` share an id. The component does not keep this
      invariant by itself: it holds only as long as no two records were added
      within the same millisecond. */
  ghost predicate UniqueIds(s: seq<Item>) {
    forall i, j :: 0 <= i < j < |s| ==> s[i].id != s[j].id
  }

  // ---------------------------------------------------------------- add

  /** The list after adding a record: the old records, then one new unchecked
      record with the given quantity and text and the id made from `now`. */
  function Added(s: seq<Item>, now: nat, quantity: Quantity, text: string): (r: seq<Item>)
    ensures |r| == |s| + 1
    ensures r[..|s|] == s
    ensures r[|s|] == Item(ItemId(now), quantity, text, false)
  {
    s + [Item(ItemId(now), quantity, text, false)]
  }

  /** When every record was added at some earlier time, remembered in
      `times`, a record added now keeps the ids unique. */
  lemma AddedAfterEarlierKeepsIdsUnique(s: seq<Item>, times: seq<nat>, now: nat,
                                        quantity: Quantity, text: string)
    requires UniqueIds(s)
    requires |times| == |s|
    requires forall k :: 0 <= k < |s| ==> s[k].id == ItemId(times[k]) && times[k] < now
    ensures UniqueIds(Added(s, now, quantity, text))
  {
    var r := Added(s, now, quantity, text);
    forall k | 0 <= k < |s| ensures r[k].id != r[|s|].id {
      ItemIdDistinct(times[k], now);
      assert r[k] == s[k];
    }
  }

  // ---------------------------------------------------------------- delete

  /** The list without the records whose id is `id`, the others in their
      order. */
  function Deleted(s: seq<Item>, id: string): (r: seq<Item>)
    ensures |r| <= |s|
    ensures forall k :: 0 <= k < |r| ==> r[k].id != id
    decreases |s|
  {
    if s == [] then []
    else Deleted(s[..|s| - 1], id) + (if s[|s| - 1].id == id then [] else [s[|s| - 1]])
  }

  /** Deleting drops every copy of each record with the id and keeps every
      copy of each other record. */
  lemma {:induction false} DeletedCounts(s: seq<Item>, id: string, x: Item)
    ensures multiset(Deleted(s, id))[x] == if x.id == id then 0 else multiset(s)[x]
    decreases |s|
  {
    if s != [] {
      DeletedCounts(s[..|s| - 1], id, x);
      assert s == s[..|s| - 1] + [s[|s| - 1]];
    }
  }

  /** Deleting works piece by piece, so the survivors keep their order. */
  lemma {:induction false} DeletedAppend(a: seq<Item>, b: seq<Item>, id: string)
    ensures Deleted(a + b, id) == Deleted(a, id) + Deleted(b, id)
    decreases |b|
  {
    if b == [] {
      assert a + b == a;
    } else {
      var front, last := b[..|b| - 1], b[|b| - 1];
      var e := if last.id == id then [] else [last];
      DeletedAppend(a, front, id);
      assert (a + b)[..|a + b| - 1] == a + front;
      assert Deleted(a + b, id) == Deleted(a + front, id) + e;
      assert Deleted(b, id) == Deleted(front, id) + e;
    }
  }

  /** When no record has the id, deleting it changes nothing. */
  lemma {:induction false} DeletedAbsent(s: seq<Item>, id: string)
    requires forall k :: 0 <= k < |s| ==> s[k].id != id
    ensures Deleted(s, id) == s
    decreases |s|
  {
    if s != [] {
      DeletedAbsent(s[..|s| - 1], id);
    }
  }

  /** Deleting the same id twice is deleting it once. */
  lemma DeletedIdempotent(s: seq<Item>, id: string)
    ensures Deleted(Deleted(s, id), id) == Deleted(s, id)
  {
    DeletedAbsent(Deleted(s, id), id);
  }

  // ---------------------------------------------------------------- toggle

  /** The list with `checked` flipped on the records whose id is `id`. */
  function Toggled(s: seq<Item>, id: string): (r: seq<Item>)
    ensures |r| == |s|
    ensures forall k :: 0 <= k < |s| ==>
      r[k].id == s[k].id && r[k].quantity == s[k].quantity && r[k].text == s[k].text
    ensures forall k :: 0 <= k < |s| ==> (r[k].checked <==> (s[k].checked != (s[k].id == id)))
    ensures forall k :: 0 <= k < |s| && s[k].id != id ==> r[k] == s[k]
  {
    seq(|s|, k requires 0 <= k < |s| =>
      if s[k].id == id then s[k].(checked := !s[k].checked) else s[k])
  }

  /** Toggling the same id twice gives back the original list. */
  lemma ToggledTwice(s: seq<Item>, id: string)
    ensures Toggled(Toggled(s, id), id) == s
  {
    var r := Toggled(Toggled(s, id), id);
    forall k | 0 <= k < |s| ensures r[k] == s[k] {
    }
  }

  /** Deleting an id after toggling it is deleting it: the toggle touched only
      records that the delete removes. */
  lemma {:induction false} DeletedToggled(s: seq<Item>, id: string)
    ensures Deleted(Toggled(s, id), id) == Deleted(s, id)
    decreases |s|
  {
    if s != [] {
      var n := |s|;
      var front := s[..n - 1];
      DeletedToggled(front, id);
      assert Toggled(s, id)[..n - 1] == Toggled(front, id);
    }
  }

  // ---------------------------------------------------------------- counts

  /** The records whose `checked` field is `checked`, in their order. */
  function WithStatus(s: seq<Item>, checked: bool): (r: seq<Item>)
    ensures |r| <= |s|
    ensures forall k :: 0 <= k < |r| ==> r[k].checked == checked
    decreases |s|
  {
    if s == [] then []
    else WithStatus(s[..|s| - 1], checked) + (if s[|s| - 1].checked == checked then [s[|s| - 1]] else [])
  }

  /** The number of checked ("packed") records. */
  function CheckedCount(s: seq<Item>): (n: nat)
    ensures n <= |s|
  {
    |WithStatus(s, true)|
  }

  lemma {:induction false} WithStatusAppend(a: seq<Item>, b: seq<Item>, checked: bool)
    ensures WithStatus(a + b, checked) == WithStatus(a, checked) + WithStatus(b, checked)
    decreases |b|
  {
    if b == [] {
      assert a + b == a;
    } else {
      var front, last := b[..|b| - 1], b[|b| - 1];
      var e := if last.checked == checked then [last] else [];
      WithStatusAppend(a, front, checked);
      assert (a + b)[..|a + b| - 1] == a + front;
      assert WithStatus(a + b, checked) == WithStatus(a + front, checked) + e;
      assert WithStatus(b, checked) == WithStatus(front, checked) + e;
    }
  }

  /** Every record is either checked or not: the checked count and the
      unchecked count add up to the length. */
  lemma {:induction false} CheckedCountSplit(s: seq<Item>)
    ensures CheckedCount(s) + |WithStatus(s, false)| == |s|
    decreases |s|
  {
    if s != [] {
      CheckedCountSplit(s[..|s| - 1]);
    }
  }

  lemma CheckedCountAppend(a: seq<Item>, b: seq<Item>)
    ensures CheckedCount(a + b) == CheckedCount(a) + CheckedCount(b)
  {
    WithStatusAppend(a, b, true);
  }

  /** Taking the last element off `a` and the same element off `b` leaves
      two lists that are still permutations of each other. */
  lemma RemoveMatching(a: seq<Item>, b: seq<Item>, k: int)
    requires multiset(a) == multiset(b)
    requires a != [] && 0 <= k < |b| && b[k] == a[|a| - 1]
    ensures multiset(a[..|a| - 1]) == multiset(b[..k] + b[k + 1..])
  {
    var x := a[|a| - 1];
    assert a == a[..|a| - 1] + [x];
    assert b == b[..k] + [x] + b[k + 1..];
    assert multiset(a[..|a| - 1]) == multiset(a) - multiset{x};
    assert multiset(b[..k] + b[k + 1..]) == multiset(b) - multiset{x};
  }

  /** The checked count depends only on which records the list holds, not
      on their order. */
  lemma {:induction false} CheckedCountPermutation(a: seq<Item>, b: seq<Item>)
    requires multiset(a) == multiset(b)
    ensures CheckedCount(a) == CheckedCount(b)
    decreases |a|
  {
    if a != [] {
      var n := |a|;
      var x, front := a[n - 1], a[..n - 1];
      assert x in multiset(b);
      var k :| 0 <= k < |b| && b[k] == x;
      var left, right := b[..k], b[k + 1..];
      RemoveMatching(a, b, k);
      CheckedCountPermutation(front, left + right);
      assert a == front + [x];
      assert b == left + [x] + right;
      CheckedCountAppend(front, [x]);
      CheckedCountAppend(left + [x], right);
      CheckedCountAppend(left, [x]);
      CheckedCountAppend(left, right);
    }
  }

  /** Adding a record leaves the checked count as it was. */
  lemma AddedCheckedCount(s: seq<Item>, now: nat, quantity: Quantity, text: string)
    ensures CheckedCount(Added(s, now, quantity, text)) == CheckedCount(s)
  {
    var r := Added(s, now, quantity, text);
    assert r[..|r| - 1] == s;
  }

  // ---------------------------------------------------------------- sort

  /** The JavaScript number a boolean converts to in arithmetic. */
  function AsNumber(b: bool): (n: int)
    ensures 0 <= n <= 1
    ensures n == 1 <==> b
  {
    if b then 1 else 0
  }

  /** The comparator of the "order" option: `localeCompare` on the ids. */
  function ById(localeCompare: (string, string) -> int): (Item, Item) -> int {
    (a: Item, b: Item) => localeCompare(a.id, b.id)
  }

  /** The comparator of the "description" option: `localeCompare` on the texts. */
  function ByText(localeCompare: (string, string) -> int): (Item, Item) -> int {
    (a: Item, b: Item) => localeCompare(a.text, b.text)
  }

  /** The comparator of the "status" option: `checked` subtracted as numbers.
      Records of equal status compare equal, and an unchecked record comes
      before a checked one. */
  function ByStatus(a: Item, b: Item): (r: int)
    ensures -1 <= r <= 1
    ensures r == 0 <==> a.checked == b.checked
    ensures r < 0 <==> !a.checked && b.checked
  {
    AsNumber(a.checked) - AsNumber(b.checked)
  }

  /** The list after choosing sort option `value`: a sorted copy for the three
      known options, an unchanged copy for any other value. */
  function SortedItems(s: seq<Item>, value: string, localeCompare: (string, string) -> int): (r: seq<Item>)
    ensures multiset(r) == multiset(s)
    ensures value == "status" ==> r == WithStatus(s, false) + WithStatus(s, true)
    ensures value != "order" && value != "description" && value != "status" ==> r == s
  {
    if value == "order" then
      SortPermutation(s, ById(localeCompare));
      Sort(s, ById(localeCompare))
    else if value == "description" then
      SortPermutation(s, ByText(localeCompare));
      Sort(s, ByText(localeCompare))
    else if value == "status" then
      SortPermutation(s, ByStatus);
      SortByStatus(s);
      Sort(s, ByStatus)
    else s
  }

  lemma ByIdConsistent(localeCompare: (string, string) -> int)
    requires Consistent(localeCompare)
    ensures Consistent(ById(localeCompare))
  {
    var cmp := ById(localeCompare);
    forall a: Item, b: Item ensures Precedes(cmp, a, b) <==> cmp(b, a) >= 0 {
      assert Precedes(cmp, a, b) == Precedes(localeCompare, a.id, b.id);
    }
    forall a: Item, b: Item, c: Item | Precedes(cmp, a, b) && Precedes(cmp, b, c)
      ensures Precedes(cmp, a, c)
    {
      assert Precedes(localeCompare, a.id, b.id) && Precedes(localeCompare, b.id, c.id);
    }
  }

  lemma ByTextConsistent(localeCompare: (string, string) -> int)
    requires Consistent(localeCompare)
    ensures Consistent(ByText(localeCompare))
  {
    var cmp := ByText(localeCompare);
    forall a: Item, b: Item ensures Precedes(cmp, a, b) <==> cmp(b, a) >= 0 {
      assert Precedes(cmp, a, b) == Precedes(localeCompare, a.text, b.text);
    }
    forall a: Item, b: Item, c: Item | Precedes(cmp, a, b) && Precedes(cmp, b, c)
      ensures Precedes(cmp, a, c)
    {
      assert Precedes(localeCompare, a.text, b.text) && Precedes(localeCompare, b.text, c.text);
    }
  }

  lemma ByStatusConsistent()
    ensures Consistent(ByStatus)
  {
  }

  /** Sorting by "order" orders the ids by `localeCompare`, keeps the records,
      and keeps records with equal ids in their relative order. */
  lemma SortByOrder(s: seq<Item>, localeCompare: (string, string) -> int)
    requires Consistent(localeCompare)
    ensures var r := SortedItems(s, "order", localeCompare);
      && (forall i, j :: 0 <= i < j < |r| ==> localeCompare(r[i].id, r[j].id) <= 0)
      && (forall x :: SameKey(r, ById(localeCompare), x) == SameKey(s, ById(localeCompare), x))
  {
    var cmp := ById(localeCompare);
    ByIdConsistent(localeCompare);
    SortSorted(s, cmp);
    var r := Sort(s, cmp);
    forall i, j | 0 <= i < j < |r| ensures localeCompare(r[i].id, r[j].id) <= 0 {
      assert Precedes(cmp, r[i], r[j]);
    }
    forall x ensures SameKey(r, cmp, x) == SameKey(s, cmp, x) {
      SortStable(s, cmp, x);
    }
  }

  /** Sorting by "description" orders the texts by `localeCompare`, keeps the
      records, and keeps records with equal texts in their relative order. */
  lemma SortByDescription(s: seq<Item>, localeCompare: (string, string) -> int)
    requires Consistent(localeCompare)
    ensures var r := SortedItems(s, "description", localeCompare);
      && (forall i, j :: 0 <= i < j < |r| ==> localeCompare(r[i].text, r[j].text) <= 0)
      && (forall x :: SameKey(r, ByText(localeCompare), x) == SameKey(s, ByText(localeCompare), x))
  {
    var cmp := ByText(localeCompare);
    ByTextConsistent(localeCompare);
    SortSorted(s, cmp);
    var r := Sort(s, cmp);
    forall i, j | 0 <= i < j < |r| ensures localeCompare(r[i].text, r[j].text) <= 0 {
      assert Precedes(cmp, r[i], r[j]);
    }
    forall x ensures SameKey(r, cmp, x) == SameKey(s, cmp, x) {
      SortStable(s, cmp, x);
    }
  }

  /** Inserting into an unchecked-then-checked list: an unchecked record goes
      after the last unchecked one, a checked record goes to the end. */
  lemma {:induction false} InsertByStatus(u: seq<Item>, c: seq<Item>, x: Item)
    requires forall k :: 0 <= k < |u| ==> !u[k].checked
    requires forall k :: 0 <= k < |c| ==> c[k].checked
    ensures Insert(u + c, x, ByStatus) == if x.checked then u + c + [x] else u + [x] + c
    decreases |c|
  {
    if !x.checked {
      if c == [] {
        assert u + c == u;
      } else {
        var n := |c|;
        assert (u + c)[..|u + c| - 1] == u + c[..n - 1];
        InsertByStatus(u, c[..n - 1], x);
        assert u + [x] + c[..n - 1] + [c[n - 1]] == u + [x] + c;
      }
    }
  }

  /** Sorting by "status" is a stable partition: the unchecked records in
      their original order, then the checked records in their original order. */
  lemma {:induction false} SortByStatus(s: seq<Item>)
    ensures Sort(s, ByStatus) == WithStatus(s, false) + WithStatus(s, true)
    decreases |s|
  {
    if s != [] {
      var n := |s|;
      var front := s[..n - 1];
      SortByStatus(front);
      var u, c, x := WithStatus(front, false), WithStatus(front, true), s[n - 1];
      InsertByStatus(u, c, x);
      assert Sort(s, ByStatus) == Insert(u + c, x, ByStatus);
      if x.checked {
        assert WithStatus(s, false) == u;
        assert WithStatus(s, true) == c + [x];
      } else {
        assert WithStatus(s, false) == u + [x];
        assert WithStatus(s, true) == c;
      }
    }
  }

  /** No sort option changes the checked count. */
  lemma SortedItemsCheckedCount(s: seq<Item>, value: string, localeCompare: (string, string) -> int)
    ensures CheckedCount(SortedItems(s, value, localeCompare)) == CheckedCount(s)
  {
    CheckedCountPermutation(SortedItems(s, value, localeCompare), s);
  }

  /** The stable status sort of [A, B, C], where only B is checked, is
      [A, C, B]. */
  lemma SortByStatusExample(a: Item, b: Item, c: Item)
    requires !a.checked && b.checked && !c.checked
    ensures Sort([a, b, c], ByStatus) == [a, c, b]
  {
    assert [a, b, c][..2] == [a, b] && [a, b][..1] == [a] && [a][..0] == [];
    assert Sort([a], ByStatus) == [a];
    assert Sort([a, b], ByStatus) == [a, b];
    assert Insert([a], c, ByStatus) == [a, c];
  }

  /** Choosing "status" for [A, B, C], where only B is checked, gives
      [A, C, B]. */
  lemma StatusSortExample(a: Item, b: Item, c: Item, localeCompare: (string, string) -> int)
    requires !a.checked && b.checked && !c.checked
    ensures SortedItems([a, b, c], "status", localeCompare) == [a, c, b]
  {
    SortByStatusExample(a, b, c);
  }

  /** Sorting ["Sunscreen", "Passport"] by description gives
      ["Passport", "Sunscreen"] under a collation that puts "Passport" first. */
  lemma DescriptionSortExample(sunscreen: Item, passport: Item, localeCompare: (string, string) -> int)
    requires Consistent(localeCompare)
    requires sunscreen.text == "Sunscreen" && passport.text == "Passport"
    requires localeCompare("Passport", "Sunscreen") < 0
    ensures SortedItems([sunscreen, passport], "description", localeCompare) == [passport, sunscreen]
  {
    var cmp := ByText(localeCompare);
    assert !Precedes(localeCompare, "Sunscreen", "Passport");
    assert cmp(sunscreen, passport) > 0;
    assert [sunscreen, passport][..1] == [sunscreen] && [sunscreen][..0] == [];
    assert Sort([sunscreen], cmp) == [sunscreen];
    assert Insert([sunscreen], passport, cmp) == [passport, sunscreen];
  }
}
