/** InventoryItemProfile: where an item is stored, category by category, and its total. */
module InventoryItemProfile {

  /** An item's Guid, as a number. */
  type ItemId = int

  /** The profile: the item and, for each category holding it, the quantity stored there. */
  datatype Profile = Profile(id: ItemId, inventoryByCategory: map<int, int>)

  /** Some key of a non-empty map; every sum below removes this same key first. */
  ghost function PickKey(m: map<int, int>): (k: int)
    requires exists key :: key in m
    ensures k in m
  {
    var key :| key in m; key
  }

  /** The sum of a map's values. */
  ghost function Sum(m: map<int, int>): int
    decreases |m.Keys|
  {
    if exists key :: key in m then
      var k := PickKey(m);
      assert |(m - {k}).Keys| < |m.Keys| by {
        assert (m - {k}).Keys + {k} == m.Keys;
      }
      m[k] + Sum(m - {k})
    else 0
  }

  /** TotalQuantity: the sum of the per-category quantities; reading it changes nothing. */
  ghost function TotalQuantity(p: Profile): int {
    Sum(p.inventoryByCategory)
  }

  /** The sum does not depend on which key is taken out first. */
  lemma {:induction false} SumRemove(m: map<int, int>, k: int)
    requires k in m
    ensures Sum(m) == m[k] + Sum(m - {k})
    decreases |m.Keys|
  {
    var j := PickKey(m);
    if j != k {
      assert |(m - {j}).Keys| < |m.Keys| by {
        assert (m - {j}).Keys + {j} == m.Keys;
      }
      assert |(m - {k}).Keys| < |m.Keys| by {
        assert (m - {k}).Keys + {k} == m.Keys;
      }
      SumRemove(m - {j}, k);
      SumRemove(m - {k}, j);
      assert (m - {j}) - {k} == (m - {k}) - {j};
    }
  }

  /** Adding a category that was not in the map adds its quantity to the sum. */
  lemma SumAddNew(m: map<int, int>, k: int, v: int)
    requires k !in m
    ensures Sum(m[k := v]) == Sum(m) + v
  {
    SumRemove(m[k := v], k);
    assert m[k := v] - {k} == m;
  }

  /** An empty profile has total 0. */
  lemma EmptyTotal(id: ItemId)
    ensures TotalQuantity(Profile(id, map[])) == 0
  {
  }

  /** The source's tests: 5 in category 3 and 7 in category 2 total 12; 3 in category 0 totals 3. */
  lemma TotalTestCases(id: ItemId)
    ensures TotalQuantity(Profile(id, map[3 := 5, 2 := 7])) == 12
    ensures TotalQuantity(Profile(id, map[0 := 3])) == 3
  {
    SumAddNew(map[], 3, 5);
    SumAddNew(map[3 := 5], 2, 7);
    assert map[3 := 5][2 := 7] == map[3 := 5, 2 := 7];
    SumAddNew(map[], 0, 3);
    assert map[][0 := 3] == map[0 := 3];
  }
}
