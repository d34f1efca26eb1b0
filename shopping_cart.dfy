/**
 * The paginated shopping cart of the supermarket scene.
 *
 * The controller keeps an ordered list of cart items with pairwise distinct names,
 * assigns every item to one of `cartPages.Length` pages (`itemsPerPage` items per page,
 * the overflow piling up on the last page), and shows exactly one page at a time
 * behind a cursor that the previous/next buttons move.
 *
 * An item is a value here: the C# `CartItem` object is identified by its name,
 * which the controller keeps unique, and its `UIObject` reference becomes `hasUI`.
 */
module ShoppingCart {
  import opened Text

  /** C#'s `int`. */
  newtype Int32 = x: int | -0x8000_0000 <= x < 0x8000_0000

  /** C#'s unchecked `a + b` on `int`: the exact sum, wrapped around modulo 2^32. */
  function WrapAdd(a: Int32, b: Int32): (r: Int32)
    ensures -0x8000_0000 <= a as int + b as int < 0x8000_0000 ==> r as int == a as int + b as int
    ensures (a as int + b as int - r as int) % 0x1_0000_0000 == 0
  {
    var s := a as int + b as int;
    ((s + 0x8000_0000) % 0x1_0000_0000 - 0x8000_0000) as Int32
  }

  /** Unity's `Mathf.Min(int, int)`. */
  function Min(a: int, b: int): (r: int)
    ensures r <= a && r <= b
    ensures r == a || r == b
  {
    if a < b then a else b
  }

  /**
   * Unity's `Mathf.Clamp(int, int, int)`: it tests the lower bound first, so with
   * `min > max` it can return a value below `min`.
   */
  function Clamp(value: int, min: int, max: int): (r: int)
    ensures min <= max ==> min <= r <= max
    ensures min <= value <= max ==> r == value
    ensures value < min ==> r == min
    ensures value >= min && value > max ==> r == max
  {
    if value < min then min else if value > max then max else value
  }

  /**
   * `Mathf.Min(position / itemsPerPage, pageCount - 1)`: the page of the item at `position`,
   * with every item beyond the last page kept on the last page.
   */
  function TargetPage(position: nat, itemsPerPage: int, pageCount: nat): (p: int)
    requires itemsPerPage >= 1
    ensures pageCount >= 1 ==> 0 <= p < pageCount
    ensures pageCount == 0 ==> p == -1
    ensures position < itemsPerPage * pageCount ==> p == position / itemsPerPage
    ensures position >= itemsPerPage * pageCount ==> p == pageCount - 1
  {
    var page := position / itemsPerPage;
    DivBelow(position, itemsPerPage, pageCount);
    Min(page, pageCount - 1)
  }

  lemma MulMonotone(d: nat, a: int, b: int)
    requires a <= b
    ensures d * a <= d * b
  {
  }

  /** An item position lies before the end of `n` full pages iff its page number is below `n`. */
  lemma DivBelow(position: nat, d: int, n: nat)
    requires d >= 1
    ensures position < d * n <==> position / d < n
  {
    var q, r := position / d, position % d;
    assert position == d * q + r && 0 <= r < d;
    if q < n {
      MulMonotone(d, q + 1, n);
      assert d * (q + 1) == d * q + d;
    } else {
      MulMonotone(d, n, q);
    }
  }

  /** `IsValidPageIndex`: the index names one of the pages. */
  predicate IsValidPageIndex(index: int, pageCount: nat): (b: bool)
    ensures b ==> pageCount >= 1
    ensures pageCount >= 1 ==> (b <==> Clamp(index, 0, pageCount - 1) == index)
  {
    0 <= index < pageCount
  }

  /** `CartItem`; `hasUI` stands for `UIObject != null`, `price` is exact (no float rounding). */
  datatype CartItem = CartItem(name: string, price: real, quantity: Int32, pageIndex: int, hasUI: bool)

  /** No two cart items share a name. */
  predicate DistinctNames(items: seq<CartItem>)
  {
    forall i, j :: 0 <= i < j < |items| ==> items[i].name != items[j].name
  }

  /** The name occurs in the cart. */
  predicate HasName(items: seq<CartItem>, name: string)
  {
    exists k :: 0 <= k < |items| && items[k].name == name
  }

  /** `cartItems.Find(item => item.Name == name)`: the position of the first item with that name. */
  function IndexOf(items: seq<CartItem>, name: string): (r: Option<nat>)
    ensures r.Some? ==> r.value < |items| && items[r.value].name == name
    ensures r.Some? ==> forall k :: 0 <= k < r.value ==> items[k].name != name
    ensures r.None? <==> !HasName(items, name)
  {
    if |items| == 0 then None
    else if items[0].name == name then Some(0)
    else
      match IndexOf(items[1..], name)
      case None =>
        assert forall k :: 1 <= k < |items| ==> items[k] == items[1..][k - 1];
        None
      case Some(k) => Some(k + 1)
  }

  /**
   * An item sits where the controller can show it: with at least one page, on a valid page
   * and with its UI object created; with no pages at all, on page -1 and without UI object
   * (CreateItemUI refuses the index).
   */
  predicate OnValidPage(item: CartItem, pageCount: nat)
  {
    if pageCount >= 1 then IsValidPageIndex(item.pageIndex, pageCount) && item.hasUI
    else item.pageIndex == -1 && !item.hasUI
  }

  predicate AllOnValidPages(items: seq<CartItem>, pageCount: nat)
  {
    forall k :: 0 <= k < |items| ==> OnValidPage(items[k], pageCount)
  }

  /** The current page is a page, or 0 when there are no pages. */
  predicate CursorInRange(currentPage: int, pageCount: nat)
  {
    0 <= currentPage && (currentPage < pageCount || currentPage == 0)
  }

  /** The cart after `AddItem(name, price, quantity)`. */
  function Added(items: seq<CartItem>, name: string, price: real, quantity: Int32,
                 itemsPerPage: int, pageCount: nat): (r: seq<CartItem>)
    requires itemsPerPage >= 1
    ensures HasName(items, name) ==> |r| == |items|
    ensures !HasName(items, name) ==> |r| == |items| + 1 && r[..|items|] == items
    ensures HasName(r, name)
    ensures forall k :: 0 <= k < |items| ==> r[k].name == items[k].name
  {
    match IndexOf(items, name)
    case Some(i) =>
      var r := items[i := items[i].(quantity := WrapAdd(items[i].quantity, quantity))];
      assert r[i].name == name;
      r
    case None =>
      var page := TargetPage(|items|, itemsPerPage, pageCount);
      var r := items + [CartItem(name, price, quantity, page, IsValidPageIndex(page, pageCount))];
      assert r[|items|].name == name;
      r
  }

  /** The cart after `cartItems.Remove(item)` for the item with that name. */
  function Removed(items: seq<CartItem>, name: string): (r: seq<CartItem>)
    ensures |r| == |items| - (if HasName(items, name) then 1 else 0)
    ensures forall x :: x in r ==> x in items
  {
    match IndexOf(items, name)
    case Some(i) => items[..i] + items[i + 1..]
    case None => items
  }

  /** One step of `ReorganizeItems`: the item at `position` gets its page and, on a valid page, a UI object. */
  function Placed(item: CartItem, position: nat, itemsPerPage: int, pageCount: nat): (r: CartItem)
    requires itemsPerPage >= 1
    ensures r.name == item.name && r.price == item.price && r.quantity == item.quantity
    ensures pageCount >= 1 ==> OnValidPage(r, pageCount)
    ensures pageCount == 0 ==> r.pageIndex == -1 && r.hasUI == item.hasUI
  {
    var page := TargetPage(position, itemsPerPage, pageCount);
    item.(pageIndex := page, hasUI := item.hasUI || IsValidPageIndex(page, pageCount))
  }

  /** The cart after `ReorganizeItems`. */
  function Reorganized(items: seq<CartItem>, itemsPerPage: int, pageCount: nat): (r: seq<CartItem>)
    requires itemsPerPage >= 1
    ensures |r| == |items|
    ensures forall k :: 0 <= k < |r| ==> r[k].name == items[k].name
    ensures pageCount >= 1 ==> AllOnValidPages(r, pageCount)
  {
    seq(|items|, k requires 0 <= k < |items| => Placed(items[k], k, itemsPerPage, pageCount))
  }

  // ---------------------------------------------------------------------------------------
  // Properties of the specification functions

  /** Adding a name already in the cart raises that item's quantity and changes nothing else. */
  lemma AddExisting(items: seq<CartItem>, name: string, price: real, quantity: Int32,
                    itemsPerPage: int, pageCount: nat, i: nat)
    requires itemsPerPage >= 1 && DistinctNames(items)
    requires i < |items| && items[i].name == name
    ensures var r := Added(items, name, price, quantity, itemsPerPage, pageCount);
      && |r| == |items|
      && r[i].quantity == WrapAdd(items[i].quantity, quantity)
      && r[i].name == items[i].name && r[i].price == items[i].price
      && r[i].pageIndex == items[i].pageIndex && r[i].hasUI == items[i].hasUI
      && forall k :: 0 <= k < |items| && k != i ==> r[k] == items[k]
  {
    assert HasName(items, name);
    var j := IndexOf(items, name).value;
    assert items[j].name == items[i].name;
  }

  /** Adding a new name appends exactly one item, on the page its position gives. */
  lemma AddNew(items: seq<CartItem>, name: string, price: real, quantity: Int32,
               itemsPerPage: int, pageCount: nat)
    requires itemsPerPage >= 1
    requires forall k :: 0 <= k < |items| ==> items[k].name != name
    ensures var r := Added(items, name, price, quantity, itemsPerPage, pageCount);
      && |r| == |items| + 1
      && r[..|items|] == items
      && r[|items|].name == name && r[|items|].price == price && r[|items|].quantity == quantity
      && r[|items|].pageIndex == Min(|items| / itemsPerPage, pageCount - 1)
      && (pageCount >= 1 ==> IsValidPageIndex(r[|items|].pageIndex, pageCount) && r[|items|].hasUI)
  {
    assert !HasName(items, name);
  }

  /** `AddItem` keeps item names pairwise distinct. */
  lemma AddKeepsNamesDistinct(items: seq<CartItem>, name: string, price: real, quantity: Int32,
                              itemsPerPage: int, pageCount: nat)
    requires itemsPerPage >= 1 && DistinctNames(items)
    ensures DistinctNames(Added(items, name, price, quantity, itemsPerPage, pageCount))
  {
    var r := Added(items, name, price, quantity, itemsPerPage, pageCount);
    match IndexOf(items, name)
    case Some(i) =>
      assert forall k :: 0 <= k < |r| ==> r[k].name == items[k].name;
    case None =>
      assert forall k :: 0 <= k < |items| ==> r[k] == items[k];
  }

  /** `AddItem` keeps every item on a valid page. */
  lemma AddKeepsPagesValid(items: seq<CartItem>, name: string, price: real, quantity: Int32,
                           itemsPerPage: int, pageCount: nat)
    requires itemsPerPage >= 1 && AllOnValidPages(items, pageCount)
    ensures AllOnValidPages(Added(items, name, price, quantity, itemsPerPage, pageCount), pageCount)
  {
    var r := Added(items, name, price, quantity, itemsPerPage, pageCount);
    match IndexOf(items, name)
    case Some(i) =>
      assert forall k :: 0 <= k < |r| ==> r[k].pageIndex == items[k].pageIndex && r[k].hasUI == items[k].hasUI;
    case None =>
      assert forall k :: 0 <= k < |items| ==> r[k] == items[k];
  }

  /** Removing a name in the cart drops exactly that item; the rest keep their relative order. */
  lemma RemovePresent(items: seq<CartItem>, name: string, i: nat)
    requires DistinctNames(items) && i < |items| && items[i].name == name
    ensures var r := Removed(items, name);
      && |r| == |items| - 1
      && (forall k :: 0 <= k < |r| ==> r[k] == items[if k < i then k else k + 1])
      && !HasName(r, name)
  {
    assert HasName(items, name);
    var j := IndexOf(items, name).value;
    assert items[j].name == items[i].name;
    var r := Removed(items, name);
    assert forall k :: 0 <= k < |r| ==> r[k] == items[if k < i then k else k + 1];
    assert forall k :: 0 <= k < |r| ==> r[k].name != name;
  }

  /** Removing a name that is not in the cart changes nothing. */
  lemma RemoveAbsent(items: seq<CartItem>, name: string)
    requires !HasName(items, name)
    ensures Removed(items, name) == items
  {
  }

  /** Removing keeps names distinct and every item on a valid page. */
  lemma RemoveKeepsInvariant(items: seq<CartItem>, name: string, pageCount: nat)
    requires DistinctNames(items) && AllOnValidPages(items, pageCount)
    ensures DistinctNames(Removed(items, name)) && AllOnValidPages(Removed(items, name), pageCount)
  {
    match IndexOf(items, name)
    case None =>
    case Some(i) =>
      RemovePresent(items, name, i);
  }

  /**
   * `ReorganizeItems` keeps every item's name, price and quantity in place, puts the item
   * at position k on page `min(k / itemsPerPage, pageCount - 1)`, and, with at least one
   * page, leaves every item on a valid page with its UI object.
   */
  lemma ReorganizePlacesItems(items: seq<CartItem>, itemsPerPage: int, pageCount: nat)
    requires itemsPerPage >= 1
    ensures var r := Reorganized(items, itemsPerPage, pageCount);
      && |r| == |items|
      && (forall k :: 0 <= k < |r| ==>
            && r[k].name == items[k].name && r[k].price == items[k].price
            && r[k].quantity == items[k].quantity
            && r[k].pageIndex == Min(k / itemsPerPage, pageCount - 1))
      && (pageCount >= 1 ==> AllOnValidPages(r, pageCount))
  {
  }

  /** `ReorganizeItems` keeps names distinct, and keeps items on valid pages. */
  lemma ReorganizeKeepsInvariant(items: seq<CartItem>, itemsPerPage: int, pageCount: nat)
    requires itemsPerPage >= 1 && DistinctNames(items) && AllOnValidPages(items, pageCount)
    ensures DistinctNames(Reorganized(items, itemsPerPage, pageCount))
    ensures AllOnValidPages(Reorganized(items, itemsPerPage, pageCount), pageCount)
  {
    var r := Reorganized(items, itemsPerPage, pageCount);
    assert forall k :: 0 <= k < |r| ==> r[k].name == items[k].name;
    assert forall k :: 0 <= k < |r| ==> r[k] == Placed(items[k], k, itemsPerPage, pageCount);
  }

  // ---------------------------------------------------------------------------------------
  // ValidateReferences: the pages found among the controller's children

  /** The children whose name contains "Page", in child order. */
  function PageChildren(children: seq<string>): (r: seq<string>)
    ensures |r| <= |children|
    ensures forall x :: x in r ==> Contains(x, "Page")
  {
    if children == [] then []
    else PageChildren(children[..|children| - 1])
         + (if Contains(children[|children| - 1], "Page") then [children[|children| - 1]] else [])
  }

  /** The filter keeps exactly the children whose name contains "Page". */
  lemma {:induction false} PageChildrenExact(children: seq<string>)
    ensures forall x :: x in PageChildren(children) <==> x in children && Contains(x, "Page")
    ensures |PageChildren(children)| <= |children|
  {
    if children != [] {
      var init := children[..|children| - 1];
      PageChildrenExact(init);
      assert children == init + [children[|children| - 1]];
    }
  }

  /** The filter works child by child: filtering a concatenation concatenates the results. */
  lemma {:induction false} PageChildrenAppend(a: seq<string>, b: seq<string>)
    ensures PageChildren(a + b) == PageChildren(a) + PageChildren(b)
  {
    if b == [] {
      assert a + b == a;
    } else {
      var init := b[..|b| - 1];
      PageChildrenAppend(a, init);
      assert (a + b)[..|a + b| - 1] == a + init;
      assert (a + b)[|a + b| - 1] == b[|b| - 1];
    }
  }

  /**
   * `ValidateReferences`: pages set by hand are kept; otherwise the children whose name
   * contains "Page" become the pages, and with none the component disables itself.
   */
  method ValidateReferences(cartPages: seq<string>, children: seq<string>)
    returns (pages: seq<string>, enabled: bool)
    ensures |cartPages| > 0 ==> pages == cartPages && enabled
    ensures |cartPages| == 0 ==> pages == PageChildren(children) && enabled == (|pages| > 0)
  {
    pages, enabled := cartPages, true;
    if |cartPages| == 0 {
      var found: seq<string> := [];
      var i := 0;
      while i < |children|
        invariant 0 <= i <= |children|
        invariant found == PageChildren(children[..i])
      {
        assert children[..i + 1][..i] == children[..i];
        if Contains(children[i], "Page") {
          found := found + [children[i]];
        }
        i := i + 1;
      }
      assert children[..i] == children;
      if |found| > 0 {
        pages := found;
      } else {
        enabled := false;
      }
    }
  }

  // ---------------------------------------------------------------------------------------
  // The controller

  class ShoppingCartController {
    /** Items per page, 1..10 (the inspector range). */
    const itemsPerPage: int
    /** The pages, each as the active flag of its game object. */
    const cartPages: array<bool>
    var cartItems: seq<CartItem>
    var currentPage: int
    /** `prevPageButton.interactable` and `nextPageButton.interactable`. */
    var prevInteractable: bool
    var nextInteractable: bool

    /** Exactly the current page is active, and each button is enabled iff it can move. */
    ghost predicate ShowsCurrentPage()
      reads this, cartPages
    {
      && (forall i :: 0 <= i < cartPages.Length ==> cartPages[i] == (i == currentPage))
      && prevInteractable == (currentPage > 0)
      && nextInteractable == (currentPage < cartPages.Length - 1)
    }

    ghost predicate Valid()
      reads this, cartPages
    {
      && 1 <= itemsPerPage <= 10
      && DistinctNames(cartItems)
      && AllOnValidPages(cartItems, cartPages.Length)
      && CursorInRange(currentPage, cartPages.Length)
      && ShowsCurrentPage()
    }

    /** The controller after `Start` has found `pageCount` pages and shown the first one. */
    constructor (itemsPerPage: int, pageCount: nat)
      requires 1 <= itemsPerPage <= 10
      ensures Valid() && fresh(cartPages)
      ensures this.itemsPerPage == itemsPerPage && cartPages.Length == pageCount
      ensures cartItems == [] && currentPage == 0
    {
      this.itemsPerPage := itemsPerPage;
      cartPages := new bool[pageCount];
      cartItems := [];
      currentPage := 0;
      prevInteractable, nextInteractable := false, false;
      new;
      UpdatePageVisibility(None);
    }

    /** `UpdatePageVisibility(specificPage)`: move to `specificPage` if given, then refresh the view. */
    method UpdatePageVisibility(specificPage: Option<int>)
      modifies this`currentPage, this`prevInteractable, this`nextInteractable, cartPages
      ensures currentPage == (if specificPage.Some? then specificPage.value else old(currentPage))
      ensures ShowsCurrentPage()
    {
      if specificPage.Some? {
        currentPage := specificPage.value;
      }
      var i := 0;
      while i < cartPages.Length
        invariant 0 <= i <= cartPages.Length
        invariant forall k :: 0 <= k < i ==> cartPages[k] == (k == currentPage)
        modifies cartPages
      {
        cartPages[i] := i == currentPage;
        i := i + 1;
      }
      prevInteractable := currentPage > 0;
      nextInteractable := currentPage < cartPages.Length - 1;
    }

    /** `CreateItemUI`: an item on a valid page gets its UI object; on any other index nothing happens. */
    method CreateItemUI(index: nat)
      requires index < |cartItems|
      modifies this`cartItems
      ensures var item := old(cartItems)[index];
        cartItems == old(cartItems)[index := item.(hasUI := item.hasUI || IsValidPageIndex(item.pageIndex, cartPages.Length))]
    {
      if IsValidPageIndex(cartItems[index].pageIndex, cartPages.Length) {
        cartItems := cartItems[index := cartItems[index].(hasUI := true)];
      }
    }

    /** `AddItem(itemName, price, quantity)`. */
    method AddItem(itemName: string, price: real, quantity: Int32 := 1)
      requires Valid()
      modifies this, cartPages
      ensures Valid()
      ensures cartItems == Added(old(cartItems), itemName, price, quantity, itemsPerPage, cartPages.Length)
      ensures currentPage == old(currentPage)
    {
      ghost var before := cartItems;
      match IndexOf(cartItems, itemName)
      case Some(i) =>
        cartItems := cartItems[i := cartItems[i].(quantity := WrapAdd(cartItems[i].quantity, quantity))];
      case None =>
        var targetPage := Min(|cartItems| / itemsPerPage, cartPages.Length - 1);
        cartItems := cartItems + [CartItem(itemName, price, quantity, targetPage, false)];
        CreateItemUI(|cartItems| - 1);
      UpdatePageVisibility(None);
      AddKeepsNamesDistinct(before, itemName, price, quantity, itemsPerPage, cartPages.Length);
      AddKeepsPagesValid(before, itemName, price, quantity, itemsPerPage, cartPages.Length);
    }

    /**
     * `RemoveItem(item)` for the item named `itemName`: a missing item changes nothing; a removed
     * item that had a UI object triggers `ReorganizeItems`, one without leaves the rest as it was.
     */
    method RemoveItem(itemName: string)
      requires Valid()
      modifies this, cartPages
      ensures Valid()
      ensures match IndexOf(old(cartItems), itemName)
        case None => cartItems == old(cartItems) && currentPage == old(currentPage)
        case Some(i) =>
          && (old(cartItems)[i].hasUI ==>
                && cartItems == Reorganized(Removed(old(cartItems), itemName), itemsPerPage, cartPages.Length)
                && currentPage == Clamp(old(currentPage), 0, cartPages.Length - 1))
          && (!old(cartItems)[i].hasUI ==>
                cartItems == Removed(old(cartItems), itemName) && currentPage == old(currentPage))
    {
      ghost var before := cartItems;
      match IndexOf(cartItems, itemName)
      case None =>
      case Some(i) =>
        var item := cartItems[i];
        cartItems := cartItems[..i] + cartItems[i + 1..];
        RemoveKeepsInvariant(before, itemName, cartPages.Length);
        if item.hasUI {
          assert cartPages.Length >= 1;
          ReorganizeKeepsInvariant(cartItems, itemsPerPage, cartPages.Length);
          ReorganizeItems();
        }
    }

    /** `ReorganizeItems`: every item is put back on the page its position gives, the cursor is clamped. */
    method ReorganizeItems()
      requires itemsPerPage >= 1
      modifies this, cartPages
      ensures cartItems == Reorganized(old(cartItems), itemsPerPage, cartPages.Length)
      ensures currentPage == Clamp(old(currentPage), 0, cartPages.Length - 1)
      ensures ShowsCurrentPage()
    {
      var i := 0;
      while i < |cartItems|
        invariant 0 <= i <= |cartItems| == |old(cartItems)|
        invariant forall k :: 0 <= k < i ==> cartItems[k] == Placed(old(cartItems)[k], k, itemsPerPage, cartPages.Length)
        invariant forall k :: i <= k < |cartItems| ==> cartItems[k] == old(cartItems)[k]
        modifies this`cartItems
      {
        cartItems := cartItems[i := cartItems[i].(pageIndex := Min(i / itemsPerPage, cartPages.Length - 1))];
        CreateItemUI(i);
        i := i + 1;
      }
      currentPage := Clamp(currentPage, 0, cartPages.Length - 1);
      UpdatePageVisibility(None);
    }

    /** `ClearAllItems`: the cart is empty and the first page is shown. */
    method ClearAllItems()
      requires Valid()
      modifies this, cartPages
      ensures Valid()
      ensures cartItems == [] && currentPage == 0
    {
      cartItems := [];
      currentPage := 0;
      UpdatePageVisibility(None);
    }

    /** `BuyAllItems`: reports the purchase (not modelled) and clears the cart. */
    method BuyAllItems()
      requires Valid()
      modifies this, cartPages
      ensures Valid()
      ensures cartItems == [] && currentPage == 0
    {
      ClearAllItems();
    }

    /** `ShowPrevPage`: one page back, unless already on the first page. */
    method ShowPrevPage()
      requires Valid()
      modifies this, cartPages
      ensures Valid()
      ensures cartItems == old(cartItems)
      ensures currentPage == (if old(currentPage) > 0 then old(currentPage) - 1 else old(currentPage))
    {
      if currentPage > 0 {
        currentPage := currentPage - 1;
        UpdatePageVisibility(Some(currentPage));
      }
    }

    /** `ShowNextPage`: one page on, unless already on the last page. */
    method ShowNextPage()
      requires Valid()
      modifies this, cartPages
      ensures Valid()
      ensures cartItems == old(cartItems)
      ensures currentPage == (if old(currentPage) < cartPages.Length - 1 then old(currentPage) + 1 else old(currentPage))
    {
      if currentPage < cartPages.Length - 1 {
        currentPage := currentPage + 1;
        UpdatePageVisibility(Some(currentPage));
      }
    }

    /** `AddTestItems`: three demo items, added one after the other. */
    method AddTestItems()
      requires Valid()
      modifies this, cartPages
      ensures Valid()
      ensures var n := itemsPerPage; var p := cartPages.Length;
        cartItems == Added(Added(Added(old(cartItems), "苹果", 5.99, 2, n, p), "香蕉", 3.49, 1, n, p), "橙子", 4.99, 3, n, p)
      ensures currentPage == old(currentPage)
    {
      AddItem("苹果", 5.99, 2);
      AddItem("香蕉", 3.49, 1);
      AddItem("橙子", 4.99, 3);
    }
  }
}
