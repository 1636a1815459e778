/**
  The `App` component's state and its event handlers. Each handler replaces
  the list with a new one computed from the old; the functions of `Items`
  say what each new list is.
*/
module Component {
  import opened Sorting
  import opened Items

  datatype Option<T> = None | Some(value: T)

  class App {
    /** The records on the list (the `itemsArray` state). */
    var items: seq<Item>
    /** The add form's text field. */
    var newItemText: string
    /** The add form's quantity select. */
    var newItemQuantity: Quantity

    /** The initial state: the list found in storage if there was one, an
        empty list otherwise, and an add form with empty text and quantity 1.
        Reading and parsing the stored text are not part of this model;
        `saved` is their outcome. */
    constructor (saved: Option<seq<Item>>)
      ensures items == (if saved.Some? then saved.value else [])
      ensures newItemText == "" && newItemQuantity == NumberValue(1)
    {
      items := if saved.Some? then saved.value else [];
      newItemText := "";
      newItemQuantity := NumberValue(1);
    }

    /** The text field's change handler. */
    method SetNewItemText(value: string)
      modifies this`newItemText
      ensures newItemText == value
    {
      newItemText := value;
    }

    /** The quantity select's change handler: it stores the option's value as
        the string the event carries. */
    method SetNewItemQuantity(value: string)
      modifies this`newItemQuantity
      ensures newItemQuantity == StringValue(value)
    {
      newItemQuantity := StringValue(value);
    }

    /** The number of checked records (`checkedCount`). */
    function CheckedCount(): (n: nat)
      reads this
      ensures n <= |items|
    {
      Items.CheckedCount(items)
    }

    /** Submitting the add form at time `now`: appends a new unchecked record
        made from the form's fields and empties the text field; the quantity
        select keeps its value. */
    method HandleAddItem(now: nat)
      modifies this`items, this`newItemText
      ensures items == Added(old(items), now, newItemQuantity, old(newItemText))
      ensures newItemText == ""
      ensures CheckedCount() == old(CheckedCount())
    {
      AddedCheckedCount(items, now, newItemQuantity, newItemText);
      items := Added(items, now, newItemQuantity, newItemText);
      newItemText := "";
    }

    /** A record's delete button: removes every record with that id. */
    method HandleDeleteItem(id: string)
      modifies this`items
      ensures items == Deleted(old(items), id)
    {
      items := Deleted(items, id);
    }

    /** A record's checkbox: flips `checked` on every record with that id. */
    method HandleCheckItem(id: string)
      modifies this`items
      ensures items == Toggled(old(items), id)
    {
      items := Toggled(items, id);
    }

    /** The clear button: empties the list. */
    method HandleClearItems()
      modifies this`items
      ensures items == [] && CheckedCount() == 0
    {
      items := [];
    }

    /** The sort select: copies the list into an array, sorts the copy in
        place with the comparator the option names (none for an unknown
        option) and makes the copy the new list. `localeCompare` is the
        host's string collation, which the language guarantees to be a
        consistent comparator. The postconditions hold for any comparator;
        the precondition records the assumption under which `Sort`, and so
        `SortedItems`, is the host's result (see `Sorting.SortUnique`): for
        an inconsistent comparator the host's order is left to the
        implementation. */
    method HandleSortItems(value: string, localeCompare: (string, string) -> int)
      requires Consistent(localeCompare)
      modifies this`items
      ensures items == SortedItems(old(items), value, localeCompare)
      ensures multiset(items) == multiset(old(items))
      ensures CheckedCount() == old(CheckedCount())
    {
      var s := items;
      var sortedItems := new Item[|s|](k requires 0 <= k < |s| => s[k]);
      assert sortedItems[..] == s;
      if value == "order" {
        InsertionSort(sortedItems, ById(localeCompare));
      } else if value == "description" {
        InsertionSort(sortedItems, ByText(localeCompare));
      } else if value == "status" {
        InsertionSort(sortedItems, ByStatus);
      }
      items := sortedItems[..];
      SortedItemsCheckedCount(s, value, localeCompare);
    }
  }

  /** Add "Passport" with the initial quantity, add "Sunscreen" after
      choosing quantity 3, check the first: two records, one packed. Then
      delete the second: only the checked "Passport" record is left. The two
      adds happen at different times. */
  method PackingScenario(t1: nat, t2: nat) returns (total: nat, packed: nat, final: seq<Item>)
    requires t1 != t2
    ensures total == 2 && packed == 1
    ensures final == [Item(ItemId(t1), NumberValue(1), "Passport", true)]
  {
    var app := new App(None);
    app.SetNewItemText("Passport");
    app.HandleAddItem(t1);
    app.SetNewItemQuantity("3");
    app.SetNewItemText("Sunscreen");
    app.HandleAddItem(t2);
    var passport := Item(ItemId(t1), NumberValue(1), "Passport", false);
    var sunscreen := Item(ItemId(t2), StringValue("3"), "Sunscreen", false);
    assert app.items == [passport, sunscreen];
    ItemIdDistinct(t1, t2);
    app.HandleCheckItem(ItemId(t1));
    var packedPassport := passport.(checked := true);
    assert app.items == [packedPassport, sunscreen];
    assert [packedPassport, sunscreen][..1] == [packedPassport] && [packedPassport][..0] == [];
    assert WithStatus([packedPassport], true) == [packedPassport];
    assert WithStatus([packedPassport, sunscreen], true) == [packedPassport];
    total := |app.items|;
    packed := app.CheckedCount();
    app.HandleDeleteItem(ItemId(t2));
    final := app.items;
  }
}
