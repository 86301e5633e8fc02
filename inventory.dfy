/** Inventory: an array of categories, each a dictionary from item id to the quantity stored. */
module InventoryCore {
  import opened Wrappers
  import Int32
  import opened InventoryItemProfile

  datatype InventoryError =
    | CategoryRequired                   // ArgumentNullException: several categories and none given
    | CategoryOutOfRange                 // ArgumentOutOfRangeException from the category guard
    | IndexOutOfRange                    // IndexOutOfRangeException from the array access itself
    | InsufficientInventory(quantity: int) // InsufficientInventoryException, carrying the quantity requested

  /** The contents of every category, in category order. */
  type Categories = seq<map<ItemId, int>>

  /** The quantity of an item stored in one category, 0 when it has no entry there. */
  function QuantityIn(category: map<ItemId, int>, item: ItemId): int {
    if item in category then category[item] else 0
  }

  /**
   * CalculateCategoryToUse as written: with several categories one must be given, with at most
   * one it defaults to 0, and a given category is refused when negative or greater than the count.
   */
  function CalculateCategoryToUseAsWritten(length: nat, categoryNum: Option<int>): (r: Result<int, InventoryError>)
    ensures r == Failure(CategoryRequired) <==> categoryNum.None? && length > 1
    ensures categoryNum.None? && length <= 1 ==> r == Success(0)
    ensures categoryNum.Some? ==> (r.Success? <==> 0 <= categoryNum.value <= length)
    ensures categoryNum.Some? && r.Success? ==> r.value == categoryNum.value
  {
    if categoryNum.None? then
      if length > 1 then Failure(CategoryRequired) else Success(0)
    else if categoryNum.value < 0 || categoryNum.value > length then Failure(CategoryOutOfRange)
    else Success(categoryNum.value)
  }

  /** The guard as written lets the category equal to the count through, which is not an index. */
  lemma GuardAdmitsCount()
    ensures CalculateCategoryToUseAsWritten(5, Some(5)) == Success(5)
  {
  }

  /** CalculateCategoryToUse with the guard corrected to `>= Length`: a given category is always an index. */
  function CalculateCategoryToUse(length: nat, categoryNum: Option<int>): (r: Result<int, InventoryError>)
    ensures r == Failure(CategoryRequired) <==> categoryNum.None? && length > 1
    ensures categoryNum.None? && length <= 1 ==> r == Success(0)
    ensures categoryNum.Some? ==> (r.Success? <==> 0 <= categoryNum.value < length)
    ensures categoryNum.Some? && r.Success? ==> r.value == categoryNum.value
  {
    if categoryNum.None? then
      if length > 1 then Failure(CategoryRequired) else Success(0)
    else if categoryNum.value < 0 || categoryNum.value >= length then Failure(CategoryOutOfRange)
    else Success(categoryNum.value)
  }

  /**
   * The category AddItem and RemoveItem touch: the category the guard as written lets through,
   * which the array access then rejects when it is not an index (no categories and none
   * given, or the category equal to the count).
   */
  function CategoryIndex(length: nat, categoryNum: Option<int>): (r: Result<nat, InventoryError>)
    ensures r.Success? <==> (categoryNum.None? && length == 1) || (categoryNum.Some? && 0 <= categoryNum.value < length)
    ensures r.Success? ==> r.value < length
    ensures r == Failure(IndexOutOfRange) <==> (categoryNum.None? && length == 0) || categoryNum == Some(length)
  {
    match CalculateCategoryToUseAsWritten(length, categoryNum)
    case Failure(e) => Failure(e)
    case Success(c) => if c >= length then Failure(IndexOutOfRange) else Success(c)
  }

  /** The same resolution behind the corrected guard: a given category never reaches the array access. */
  function CorrectedCategoryIndex(length: nat, categoryNum: Option<int>): (r: Result<nat, InventoryError>)
    ensures r.Success? <==> (categoryNum.None? && length == 1) || (categoryNum.Some? && 0 <= categoryNum.value < length)
    ensures r.Success? ==> r.value < length
    ensures r == Failure(IndexOutOfRange) <==> categoryNum.None? && length == 0
  {
    match CalculateCategoryToUse(length, categoryNum)
    case Failure(e) => Failure(e)
    case Success(c) => if c >= length then Failure(IndexOutOfRange) else Success(c)
  }

  /**
   * The two resolutions differ only at the category equal to the count, which the code as
   * written rejects with IndexOutOfRange and the corrected guard with CategoryOutOfRange.
   */
  lemma CorrectionOnlyAtCount(length: nat, categoryNum: Option<int>)
    ensures categoryNum != Some(length) ==> CategoryIndex(length, categoryNum) == CorrectedCategoryIndex(length, categoryNum)
    ensures CategoryIndex(length, Some(length)) == Failure(IndexOutOfRange)
    ensures CorrectedCategoryIndex(length, Some(length)) == Failure(CategoryOutOfRange)
  {
  }

  /** The categories after adding `qty` of `item` to category `c`: the int `+=`, wrapping on overflow. */
  function Added(categories: Categories, c: nat, item: ItemId, qty: int): Categories
    requires c < |categories|
  {
    categories[c := categories[c][item := Int32.Wrap(QuantityIn(categories[c], item) + qty)]]
  }

  /**
   * One category after removing `qty` of `item`, with the quantity left: an absent item or a
   * negative remainder is refused, a zero remainder deletes the entry.
   */
  function Removed(category: map<ItemId, int>, item: ItemId, qty: int): Result<(map<ItemId, int>, int), InventoryError> {
    if item !in category then Failure(InsufficientInventory(qty))
    else
      var remaining := Int32.Wrap(category[item] - qty);
      if remaining < 0 then Failure(InsufficientInventory(qty))
      else if remaining == 0 then Success((category - {item}, 0))
      else Success((category[item := remaining], remaining))
  }

  /** The categories after a successful removal from category `c`. */
  function RemovedFrom(categories: Categories, c: nat, item: ItemId, qty: int): Result<(Categories, int), InventoryError>
    requires c < |categories|
  {
    match Removed(categories[c], item, qty)
    case Failure(e) => Failure(e)
    case Success((category, remaining)) => Success((categories[c := category], remaining))
  }

  /** Every stored quantity is an int. */
  ghost predicate Int32Quantities(categories: Categories) {
    forall c, item :: 0 <= c < |categories| && item in categories[c] ==> Int32.InRange(categories[c][item])
  }

  /** Adding keeps every stored quantity an int: the `+=` wraps. */
  lemma AddedKeepsInt32(categories: Categories, c: nat, item: ItemId, qty: int)
    requires c < |categories| && Int32Quantities(categories)
    ensures Int32Quantities(Added(categories, c, item, qty))
  {
  }

  /** A successful removal keeps every stored quantity an int. */
  lemma RemovedFromKeepsInt32(categories: Categories, c: nat, item: ItemId, qty: int)
    requires c < |categories| && Int32Quantities(categories) && RemovedFrom(categories, c, item, qty).Success?
    ensures Int32Quantities(RemovedFrom(categories, c, item, qty).value.0)
  {
  }

  /** The item profile: the categories holding the item, each with its quantity there. */
  ghost predicate IsProfileOf(byCategory: map<int, int>, categories: Categories, item: ItemId) {
    && (forall c :: c in byCategory <==> 0 <= c < |categories| && item in categories[c])
    && (forall c :: c in byCategory ==> byCategory[c] == categories[c][item])
  }

  /** The quantities of an item stored in the first `n` categories, added up. */
  function StoredUpTo(categories: Categories, item: ItemId, n: nat): int
    requires n <= |categories|
  {
    if n == 0 then 0 else StoredUpTo(categories, item, n - 1) + QuantityIn(categories[n - 1], item)
  }

  /** The corrected guard refuses the category equal to the count, which the guard as written admits. */
  lemma CorrectedGuardRejectsCount(length: nat)
    ensures CalculateCategoryToUseAsWritten(length, Some(length)) == Success(length)
    ensures CalculateCategoryToUse(length, Some(length)) == Failure(CategoryOutOfRange)
  {
  }

  /** Adding touches one entry of one category: the item's quantity becomes the wrapped sum. */
  lemma AddedChangesOnlyTheItem(categories: Categories, c: nat, item: ItemId, qty: int)
    requires c < |categories|
    ensures |Added(categories, c, item, qty)| == |categories|
    ensures forall d :: 0 <= d < |categories| && d != c ==> Added(categories, c, item, qty)[d] == categories[d]
    ensures forall other :: other != item ==>
      (other in Added(categories, c, item, qty)[c] <==> other in categories[c])
      && QuantityIn(Added(categories, c, item, qty)[c], other) == QuantityIn(categories[c], other)
    ensures item in Added(categories, c, item, qty)[c]
    ensures Int32.InRange(QuantityIn(categories[c], item) + qty) ==>
      Added(categories, c, item, qty)[c][item] == QuantityIn(categories[c], item) + qty
  {
  }

  /** The `+=` is unchecked: adding 1 to the largest int stores the smallest. */
  lemma AddOverflowWraps(categories: Categories, c: nat, item: ItemId)
    requires c < |categories| && item in categories[c] && categories[c][item] == Int32.MaxValue
    ensures Added(categories, c, item, 1)[c][item] == Int32.MinValue
  {
  }

  /**
   * For quantities that fit an int, removal fails exactly when the item is absent or more is
   * asked than stored; taking all of it deletes the entry, taking less leaves the difference.
   */
  lemma RemovedCases(category: map<ItemId, int>, item: ItemId, qty: int)
    requires item in category ==> 0 <= category[item] <= Int32.MaxValue
    requires 0 <= qty <= Int32.MaxValue
    ensures Removed(category, item, qty).Failure? <==> item !in category || qty > category[item]
    ensures Removed(category, item, qty).Failure? ==> Removed(category, item, qty).error == InsufficientInventory(qty)
    ensures item in category && qty == category[item] ==> Removed(category, item, qty) == Success((category - {item}, 0))
    ensures item in category && qty < category[item] ==>
      Removed(category, item, qty) == Success((category[item := category[item] - qty], category[item] - qty))
  {
    if item in category {
      assert Int32.InRange(category[item] - qty);
    }
  }

  /** Removing what was just added restores the category, unless the entry held 0 before. */
  lemma AddThenRemove(categories: Categories, c: nat, item: ItemId, qty: int)
    requires c < |categories|
    requires item in categories[c] ==> 0 < categories[c][item] && Int32.InRange(categories[c][item])
    requires Int32.InRange(qty) && Int32.InRange(QuantityIn(categories[c], item) + qty)
    ensures RemovedFrom(Added(categories, c, item, qty), c, item, qty) == Success((categories, QuantityIn(categories[c], item)))
  {
    var added := Added(categories, c, item, qty);
    var q := QuantityIn(categories[c], item);
    assert added[c][item] == q + qty;
    assert Int32.InRange(q + qty - qty);
    if item in categories[c] {
      assert added[c][item := q] == categories[c];
    } else {
      assert added[c] - {item} == categories[c];
    }
    assert added[c := categories[c]] == categories;
  }

  /** An entry holding 0 (which AddItem with quantity 0 leaves behind) is deleted, not restored, by a matching add and remove. */
  lemma ZeroEntryNotRestored()
    ensures RemovedFrom(Added([map[5 := 0]], 0, 5, 3), 0, 5, 3) == Success(([map[]], 0))
  {
    var added := Added([map[5 := 0]], 0, 5, 3);
    assert added[0] == map[5 := 3];
    assert added[0] - {5} == map[];
    assert Removed(added[0], 5, 3) == Success((map[], 0));
    assert added[0 := map[]] == [map[]];
  }

  /** A negative request wraps the difference past int.MaxValue, so it is refused although it asks for less than is stored. */
  lemma NegativeRequestRefused()
    ensures Removed(map[1 := 5], 1, -Int32.MaxValue) == Failure(InsufficientInventory(-Int32.MaxValue))
  {
    assert Int32.Wrap(5 + Int32.MaxValue) == 4 + Int32.MinValue;
  }

  /** The profile's quantities restricted to categories below `n`. */
  ghost function ProfileBelow(byCategory: map<int, int>, n: int): map<int, int> {
    map c | c in byCategory && c < n :: byCategory[c]
  }

  /** Summing the profile over the categories below `n` is summing the stored quantities there. */
  lemma {:induction false} ProfileBelowSum(byCategory: map<int, int>, categories: Categories, item: ItemId, n: nat)
    requires IsProfileOf(byCategory, categories, item) && n <= |categories|
    ensures Sum(ProfileBelow(byCategory, n)) == StoredUpTo(categories, item, n)
  {
    if n == 0 {
      assert ProfileBelow(byCategory, 0) == map[];
    } else {
      ProfileBelowSum(byCategory, categories, item, n - 1);
      var below := ProfileBelow(byCategory, n - 1);
      if item in categories[n - 1] {
        assert ProfileBelow(byCategory, n) == below[n - 1 := categories[n - 1][item]];
        SumAddNew(below, n - 1, categories[n - 1][item]);
      } else {
        assert ProfileBelow(byCategory, n) == below;
      }
    }
  }

  /** TotalQuantity of an item's profile is the sum, over all categories, of the quantity stored there. */
  lemma ProfileTotal(id: ItemId, byCategory: map<int, int>, categories: Categories, item: ItemId)
    requires IsProfileOf(byCategory, categories, item)
    ensures TotalQuantity(Profile(id, byCategory)) == StoredUpTo(categories, item, |categories|)
  {
    ProfileBelowSum(byCategory, categories, item, |categories|);
    assert ProfileBelow(byCategory, |categories|) == byCategory;
  }

  class Inventory {
    const cachedInventory: array<map<ItemId, int>>

    /** Every quantity stored is an int. */
    ghost predicate Valid()
      reads this, cachedInventory
    {
      Int32Quantities(cachedInventory[..])
    }

    /** The constructor: `numCategories` categories, all empty. */
    constructor (numCategories: nat := 1)
      ensures Valid()
      ensures fresh(cachedInventory)
      ensures cachedInventory.Length == numCategories
      ensures forall c :: 0 <= c < numCategories ==> cachedInventory[c] == map[]
    {
      var categories := new map<ItemId, int>[numCategories];
      for newCat := 0 to numCategories
        modifies categories
        invariant forall c :: 0 <= c < newCat ==> categories[c] == map[]
      {
        categories[newCat] := map[];
      }
      cachedInventory := categories;
    }

    /** CreateElementForItem: an entry with quantity 0, unless the item already has one. */
    method CreateElementForItem(itemToCreate: ItemId, categoryNum: nat)
      requires categoryNum < cachedInventory.Length
      modifies cachedInventory
      ensures itemToCreate in cachedInventory[categoryNum]
      ensures cachedInventory[..] == old(cachedInventory[..])[categoryNum :=
        if itemToCreate in old(cachedInventory[categoryNum]) then old(cachedInventory[categoryNum])
        else old(cachedInventory[categoryNum])[itemToCreate := 0]]
    {
      if itemToCreate in cachedInventory[categoryNum] {
        return;
      }
      cachedInventory[categoryNum] := cachedInventory[categoryNum][itemToCreate := 0];
    }

    /**
     * AddItem: adds `qtyToAdd` of the item to the resolved category, creating its entry when
     * needed, and returns the quantity stored there afterwards. A refused category changes nothing.
     */
    method AddItem(itemToAdd: ItemId, qtyToAdd: int := 1, categoryToAddTo: Option<int> := None) returns (r: Result<int, InventoryError>)
      requires Valid()
      modifies cachedInventory
      ensures Valid()
      ensures r.Failure? <==> CategoryIndex(cachedInventory.Length, categoryToAddTo).Failure?
      ensures r.Failure? ==> r.error == CategoryIndex(cachedInventory.Length, categoryToAddTo).error
      ensures r.Failure? ==> cachedInventory[..] == old(cachedInventory[..])
      ensures r.Success? ==>
        var c := CategoryIndex(cachedInventory.Length, categoryToAddTo).value;
        cachedInventory[..] == Added(old(cachedInventory[..]), c, itemToAdd, qtyToAdd)
        && r.value == cachedInventory[c][itemToAdd]
    {
      var category := CategoryIndex(cachedInventory.Length, categoryToAddTo);
      if category.Failure? {
        return Failure(category.error);
      }
      var c := category.value;
      ghost var before := cachedInventory[..];
      CreateElementForItem(itemToAdd, c);
      assert cachedInventory[c][itemToAdd] == QuantityIn(before[c], itemToAdd);
      var quantity := Int32.Wrap(cachedInventory[c][itemToAdd] + qtyToAdd);
      assert cachedInventory[c][itemToAdd := quantity] == before[c][itemToAdd := quantity];
      cachedInventory[c] := cachedInventory[c][itemToAdd := quantity];
      AddedKeepsInt32(before, c, itemToAdd, qtyToAdd);
      return Success(cachedInventory[c][itemToAdd]);
    }

    /**
     * RemoveItem: takes `qtyToRemove` of the item out of the resolved category and returns the
     * quantity left; the entry is deleted when nothing is left. Every refusal changes nothing.
     */
    method RemoveItem(itemToRemove: ItemId, qtyToRemove: int := 1, categoryToRemoveFrom: Option<int> := None) returns (r: Result<int, InventoryError>)
      requires Valid()
      modifies cachedInventory
      ensures Valid()
      ensures CategoryIndex(cachedInventory.Length, categoryToRemoveFrom).Failure? ==>
        r == Failure(CategoryIndex(cachedInventory.Length, categoryToRemoveFrom).error)
      ensures CategoryIndex(cachedInventory.Length, categoryToRemoveFrom).Success? ==>
        var removal := RemovedFrom(old(cachedInventory[..]), CategoryIndex(cachedInventory.Length, categoryToRemoveFrom).value, itemToRemove, qtyToRemove);
        (removal.Failure? ==> r == Failure(removal.error)) && (removal.Success? ==> r == Success(removal.value.1) && cachedInventory[..] == removal.value.0)
      ensures r.Failure? ==> cachedInventory[..] == old(cachedInventory[..])
    {
      var category := CategoryIndex(cachedInventory.Length, categoryToRemoveFrom);
      if category.Failure? {
        return Failure(category.error);
      }
      var c := category.value;
      ghost var before := cachedInventory[..];
      if itemToRemove in cachedInventory[c] {
        var qtyRemaining := Int32.Wrap(cachedInventory[c][itemToRemove] - qtyToRemove);
        if qtyRemaining < 0 {
          return Failure(InsufficientInventory(qtyToRemove));
        } else if qtyRemaining == 0 {
          cachedInventory[c] := cachedInventory[c] - {itemToRemove};
        } else {
          cachedInventory[c] := cachedInventory[c][itemToRemove := Int32.Wrap(cachedInventory[c][itemToRemove] - qtyToRemove)];
        }
        RemovedFromKeepsInt32(before, c, itemToRemove, qtyToRemove);
        return Success(qtyRemaining);
      } else {
        return Failure(InsufficientInventory(qtyToRemove));
      }
    }

    /** GetItemProfile: a for loop over the categories collecting those that hold the item. */
    method GetItemProfile(itemSearch: ItemId) returns (profile: Profile)
      ensures profile.id == itemSearch
      ensures IsProfileOf(profile.inventoryByCategory, cachedInventory[..], itemSearch)
    {
      var categoryDic: map<int, int> := map[];
      for i := 0 to cachedInventory.Length
        invariant forall c :: c in categoryDic <==> 0 <= c < i && itemSearch in cachedInventory[c]
        invariant forall c :: c in categoryDic ==> categoryDic[c] == cachedInventory[c][itemSearch]
      {
        if itemSearch in cachedInventory[i] {
          categoryDic := categoryDic[i := cachedInventory[i][itemSearch]];
        }
      }
      return Profile(itemSearch, categoryDic);
    }
  }

  /** The source's test on the default single category: adding 3 without a category stores 3 in category 0. */
  method OneCategoryScenario(item: ItemId) returns (added: Result<int, InventoryError>, profile: Profile)
    ensures added == Success(3)
    ensures profile.inventoryByCategory == map[0 := 3] && TotalQuantity(profile) == 3
  {
    var inventory := new Inventory(1);
    added := inventory.AddItem(item, 3);
    profile := inventory.GetItemProfile(item);
    ghost var contents := inventory.cachedInventory[..];
    assert contents[0] == map[item := 3];
    forall c
      ensures c in profile.inventoryByCategory <==> c == 0
    {
      if c == 0 {
        assert contents[c] == inventory.cachedInventory[c];
      }
    }
    TotalTestCases(item);
  }

  /** The source's tests on five categories: 5 into category 3 and 7 into category 2 give a total of 12. */
  method AddToTwoCategoriesScenario(item: ItemId) returns (profile: Profile)
    ensures profile.inventoryByCategory == map[3 := 5, 2 := 7]
    ensures TotalQuantity(profile) == 12
  {
    var inventory := new Inventory(5);
    var added := inventory.AddItem(item, 5, Some(3));
    added := inventory.AddItem(item, 7, Some(2));
    assert inventory.cachedInventory[3] == map[item := 5] && inventory.cachedInventory[2] == map[item := 7];
    assert forall c :: 0 <= c < 5 && c != 2 && c != 3 ==> inventory.cachedInventory[c] == map[];
    profile := inventory.GetItemProfile(item);
    ghost var contents := inventory.cachedInventory[..];
    forall c
      ensures c in profile.inventoryByCategory <==> c == 2 || c == 3
    {
      if 0 <= c < 5 {
        assert contents[c] == inventory.cachedInventory[c];
      }
    }
    assert contents[2] == map[item := 7] && contents[3] == map[item := 5];
    TotalTestCases(item);
  }

  /** The source's removal test: removing all 5 from category 3 takes it out of the profile; category 2 keeps its 7. */
  method RemoveAllScenario(item: ItemId) returns (all: Result<int, InventoryError>, profile: Profile)
    ensures all == Success(0)
    ensures 3 !in profile.inventoryByCategory
    ensures 2 in profile.inventoryByCategory && profile.inventoryByCategory[2] == 7
  {
    var first := new Inventory(5);
    var added := first.AddItem(item, 5, Some(3));
    added := first.AddItem(item, 7, Some(2));
    all := first.RemoveItem(item, 5, Some(3));
    assert first.cachedInventory[3] == map[] && first.cachedInventory[2] == map[item := 7];
    profile := first.GetItemProfile(item);
    ghost var contents := first.cachedInventory[..];
    assert contents[3] == map[] && contents[2] == map[item := 7];
  }

  /**
   * The source's removal tests on the same inventory: removing 2 of the 5 in category 3 leaves 3
   * there, and a removal without a category is refused.
   */
  method RemoveSomeScenario(item: ItemId) returns (some: Result<int, InventoryError>, profile: Profile, missing: Result<int, InventoryError>)
    ensures some == Success(3)
    ensures 3 in profile.inventoryByCategory && profile.inventoryByCategory[3] == 3
    ensures missing == Failure(CategoryRequired)
  {
    var second := new Inventory(5);
    var added := second.AddItem(item, 5, Some(3));
    added := second.AddItem(item, 7, Some(2));
    some := second.RemoveItem(item, 2, Some(3));
    assert second.cachedInventory[3] == map[item := 3];
    profile := second.GetItemProfile(item);
    ghost var contents := second.cachedInventory[..];
    assert contents[3] == map[item := 3];
    missing := second.RemoveItem(item, 4);
  }

  /**
   * The category equal to the count passes the guard as written and fails at the array access:
   * IndexOutOfRange, with nothing stored.
   */
  method CountCategoryScenario(item: ItemId) returns (added: Result<int, InventoryError>, removed: Result<int, InventoryError>)
    ensures added == Failure(IndexOutOfRange) && removed == Failure(IndexOutOfRange)
  {
    var inventory := new Inventory(5);
    added := inventory.AddItem(item, 1, Some(5));
    removed := inventory.RemoveItem(item, 1, Some(5));
  }

  /**
   * The source's refusals: no category with five categories, category 22, more than is stored,
   * and an item never added.
   */
  method RefusalScenario(item: ItemId) returns (noCategory: Result<int, InventoryError>, outOfRange: Result<int, InventoryError>,
                                                 tooMany: Result<int, InventoryError>, absent: Result<int, InventoryError>)
    ensures noCategory == Failure(CategoryRequired) && outOfRange == Failure(CategoryOutOfRange)
    ensures tooMany == Failure(InsufficientInventory(4)) && absent == Failure(InsufficientInventory(4))
  {
    var inventory := new Inventory(5);
    noCategory := inventory.AddItem(item, 4);
    outOfRange := inventory.AddItem(item, 4, Some(22));
    absent := inventory.RemoveItem(item, 4, Some(3));
    var added := inventory.AddItem(item, 3, Some(3));
    tooMany := inventory.RemoveItem(item, 4, Some(3));
  }
}
