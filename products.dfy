/**
 * The product list screen: the fetched list of products, the add form's
 * fields, whether the add sheet is shown, and the actions that change them.
 * Persisting (`viewContext.save()`) is modelled as always succeeding; the
 * screen has no failure path other than aborting the process.
 */
module Products {
  import opened Wrappers
  import opened Catalog

  class ProductsListView {
    /** The fetched products, in the fetch request's order (timestamp ascending). */
    var items: seq<Record>
    /** The identity the next inserted managed object receives. */
    var nextOid: nat
    var newItemName: string
    var selectedCategory: string
    var newItemPrice: string
    var isAddItemPresented: bool

    ghost predicate Valid()
      reads this
    {
      selectedCategory in Categories &&
      AllWellFormed(items) && Sorted(items) && UniqueOids(items) && OidsBelow(items, nextOid)
    }

    /** The screen over an empty store, with the form at its initial values. */
    constructor ()
      ensures Valid()
      ensures items == [] && nextOid == 0
      ensures newItemName == "" && selectedCategory == DefaultCategory && newItemPrice == ""
      ensures !isAddItemPresented
    {
      items, nextOid := [], 0;
      newItemName, selectedCategory, newItemPrice := "", DefaultCategory, "";
      isAddItemPresented := false;
    }

    /** The toolbar's "Agregar producto" button. */
    method ToggleAddForm()
      modifies this`isAddItemPresented
      ensures isAddItemPresented == !old(isAddItemPresented)
    {
      isAddItemPresented := !isAddItemPresented;
    }

    /** Typing into the name field. */
    method EditName(text: string)
      modifies this`newItemName
      ensures newItemName == text
    {
      newItemName := text;
    }

    /** Typing into the price field. */
    method EditPrice(text: string)
      modifies this`newItemPrice
      ensures newItemPrice == text
    {
      newItemPrice := text;
    }

    /** Turning the picker wheel: it offers only the listed categories. */
    method SelectCategory(category: string)
      requires Valid()
      requires category in Categories
      modifies this`selectedCategory
      ensures Valid()
      ensures selectedCategory == category
    {
      selectedCategory := category;
    }

    /**
     * `addItem`: when the guard admits the form, stores a record built from
     * the form and stamped `now`, then resets the form; otherwise changes
     * nothing. `parse` is the conversion of the price text to a number.
     */
    method AddItem(parse: string -> Option<real>, now: int)
      requires Valid()
      modifies this`items, this`nextOid, this`newItemName, this`selectedCategory, this`newItemPrice
      ensures Valid()
      ensures !Admits(old(newItemName), old(newItemPrice), parse) ==>
                items == old(items) && nextOid == old(nextOid) &&
                newItemName == old(newItemName) && selectedCategory == old(selectedCategory) &&
                newItemPrice == old(newItemPrice)
      ensures Admits(old(newItemName), old(newItemPrice), parse) ==>
                items == Insert(old(items), Record(old(nextOid), old(newItemName), old(selectedCategory),
                                                   parse(old(newItemPrice)).value, now)) &&
                nextOid == old(nextOid) + 1 &&
                newItemName == "" && selectedCategory == DefaultCategory && newItemPrice == ""
      ensures Admits(old(newItemName), old(newItemPrice), parse) &&
              (forall i :: 0 <= i < |old(items)| ==> old(items)[i].timestamp <= now) ==>
                items == old(items) + [Record(old(nextOid), old(newItemName), old(selectedCategory),
                                              parse(old(newItemPrice)).value, now)]
    {
      if newItemName == [] {
        return;
      }
      var price := parse(newItemPrice);
      if price.None? || price.value <= 0.0 {
        return;
      }
      var item := Record(nextOid, newItemName, selectedCategory, price.value, now);
      InsertKeepsInvariant(items, item);
      InsertSorted(items, item);
      if forall i :: 0 <= i < |items| ==> items[i].timestamp <= now {
        InsertAtEnd(items, item);
      }
      items := Insert(items, item);
      nextOid := nextOid + 1;
      newItemName, selectedCategory, newItemPrice := "", DefaultCategory, "";
    }

    /** The sheet's "Guardar" button: tries to add, then always closes the sheet. */
    method PressSave(parse: string -> Option<real>, now: int)
      requires Valid()
      modifies this
      ensures Valid()
      ensures !isAddItemPresented
      ensures !Admits(old(newItemName), old(newItemPrice), parse) ==>
                items == old(items) && nextOid == old(nextOid) &&
                newItemName == old(newItemName) && selectedCategory == old(selectedCategory) &&
                newItemPrice == old(newItemPrice)
      ensures Admits(old(newItemName), old(newItemPrice), parse) ==>
                items == Insert(old(items), Record(old(nextOid), old(newItemName), old(selectedCategory),
                                                   parse(old(newItemPrice)).value, now)) &&
                nextOid == old(nextOid) + 1 &&
                newItemName == "" && selectedCategory == DefaultCategory && newItemPrice == ""
    {
      AddItem(parse, now);
      isAddItemPresented := false;
    }

    /**
     * `deleteItems`: the rows at `offsets` (an index set: ascending, distinct,
     * each a row of the list) are looked up first, then deleted one object at
     * a time; the list loses exactly those rows.
     */
    method DeleteItems(offsets: seq<nat>)
      requires Valid()
      requires forall k :: 0 <= k < |offsets| ==> offsets[k] < |items|
      requires forall k, l :: 0 <= k < l < |offsets| ==> offsets[k] < offsets[l]
      modifies this`items
      ensures Valid()
      ensures items == RemoveAt(old(items), Positions(offsets))
    {
      ghost var original := items;
      var snapshot := items;
      var victims := seq(|offsets|, k requires 0 <= k < |offsets| => snapshot[offsets[k]].oid);
      var k := 0;
      ghost var done: set<nat> := {};
      RemoveNothing(items, 0);
      while k < |victims|
        invariant 0 <= k <= |victims|
        invariant forall o :: o in done <==> o in offsets[..k]
        invariant items == RemoveAt(original, done)
      {
        assert offsets[k] !in done;
        DeleteObjectStep(original, done, offsets[k], 0);
        items := DeleteObject(items, victims[k]);
        assert offsets[..k + 1] == offsets[..k] + [offsets[k]];
        done := done + {offsets[k]};
        k := k + 1;
      }
      assert offsets[..k] == offsets;
      assert done == Positions(offsets);
      RemoveAtKeepsInvariant(original, done, nextOid);
    }
  }

  /** A name made only of a space is accepted: names are not trimmed. */
  method BlankNameIsStored() returns (view: ProductsListView)
    ensures view.items == [Record(0, " ", DefaultCategory, 5.0, 10)]
    ensures !view.isAddItemPresented
  {
    view := new ProductsListView();
    var parse := (text: string) => if text == "5" then Some(5.0) else None;
    view.ToggleAddForm();
    view.EditName(" ");
    view.EditPrice("5");
    view.PressSave(parse, 10);
    assert Admits(" ", "5", parse);
  }

  /** A rejected save changes no field of the form, and still closes the sheet. */
  method RejectedSaveKeepsForm() returns (view: ProductsListView)
    ensures view.items == []
    ensures view.newItemName == "Falda larga" && view.selectedCategory == "Falda" && view.newItemPrice == "-5"
    ensures !view.isAddItemPresented
  {
    view := new ProductsListView();
    var parse := (text: string) => if text == "-5" then Some(-5.0) else None;
    view.ToggleAddForm();
    view.EditName("Falda larga");
    view.SelectCategory("Falda");
    view.EditPrice("-5");
    view.PressSave(parse, 10);
  }
}
