// The product page (frontend/src/pages/ProductDetail.jsx): the guard in
// front of add-to-cart, and the page state behind the quantity buttons and
// the size buttons.
module ProductDetail {
  import opened Results
  import opened ProductModel
  import opened Cart

  /** The product as the page holds it: what the cart copies, plus the size counters. */
  datatype PageProduct = PageProduct(card: ProductCard, sizes: seq<SizeStock>)

  /** The toast the page shows after a click on "Add to Cart". */
  datatype Notice = SelectSizeFirst | InsufficientStock | AddedToCart

  /**
   * handleAddToCart: without a selected size, or when the first entry for
   * that size is missing or holds less than the quantity, an error toast is
   * shown and the cart is left alone; otherwise addToCart is called once.
   */
  function HandleAddToCart(p: PageProduct, selectedSize: string, quantity: int, cart: seq<CartItem>): (r: (Notice, seq<CartItem>))
    ensures r.0 == SelectSizeFirst <==> selectedSize == []
    ensures r.0 == AddedToCart <==>
      selectedSize != [] && FindSize(p.sizes, selectedSize).Some? && p.sizes[FindSize(p.sizes, selectedSize).value].stock >= quantity
    ensures r.0 != AddedToCart ==> r.1 == cart
    ensures r.0 == AddedToCart ==> r.1 == AddToCart(cart, p.card, selectedSize, quantity)
  {
    if selectedSize == [] then (SelectSizeFirst, cart)
    else match FindSize(p.sizes, selectedSize)
      case None => (InsufficientStock, cart)
      case Some(i) =>
        if p.sizes[i].stock < quantity then (InsufficientStock, cart)
        else (AddedToCart, AddToCart(cart, p.card, selectedSize, quantity))
  }

  /**
   * A successful add grows the cart count by the page quantity and keeps one
   * entry per (product, size); the size had at least that much stock.
   */
  lemma AddedGrowsCount(p: PageProduct, selectedSize: string, quantity: int, cart: seq<CartItem>)
    requires UniqueKeys(cart)
    requires HandleAddToCart(p, selectedSize, quantity, cart).0 == AddedToCart
    ensures var r := HandleAddToCart(p, selectedSize, quantity, cart);
      && CartCount(r.1) == CartCount(cart) + quantity
      && UniqueKeys(r.1)
      && exists i :: 0 <= i < |p.sizes| && p.sizes[i].size == selectedSize && p.sizes[i].stock >= quantity
  {
    AddToCartCount(cart, p.card, selectedSize, quantity);
    AddToCartKeepsUnique(cart, p.card, selectedSize, quantity);
    var i := FindSize(p.sizes, selectedSize).value;
    assert p.sizes[i].size == selectedSize;
  }

  /** The page state the buttons change. */
  class DetailPage {
    var quantity: int
    var selectedSize: string

    /** The quantity never drops below 1. */
    ghost predicate Valid()
      reads this
    {
      quantity >= 1
    }

    constructor ()
      ensures Valid()
      ensures quantity == 1 && selectedSize == []
    {
      quantity := 1;
      selectedSize := [];
    }

    /** The "-" button: one less, but never below 1. */
    method Decrement()
      requires Valid()
      modifies this
      ensures Valid()
      ensures quantity == if old(quantity) > 1 then old(quantity) - 1 else 1
      ensures selectedSize == old(selectedSize)
    {
      quantity := if quantity - 1 > 1 then quantity - 1 else 1;
    }

    /** The "+" button: one more, without an upper bound. */
    method Increment()
      requires Valid()
      modifies this
      ensures Valid()
      ensures quantity == old(quantity) + 1 && selectedSize == old(selectedSize)
    {
      quantity := quantity + 1;
    }

    /** A size button selects its size only when that size has stock. */
    method ClickSize(entry: SizeStock)
      requires Valid()
      modifies this
      ensures Valid() && quantity == old(quantity)
      ensures selectedSize == ClickedSize(old(selectedSize), entry)
      ensures selectedSize == if entry.stock > 0 then entry.size else old(selectedSize)
    {
      if entry.stock > 0 {
        selectedSize := entry.size;
      }
    }

    /** "Add to Cart" with the page state: the cart the guard hands on. */
    method AddToCartClicked(p: PageProduct, cart: seq<CartItem>) returns (notice: Notice, next: seq<CartItem>)
      requires Valid() && UniqueKeys(cart)
      ensures (notice, next) == HandleAddToCart(p, selectedSize, quantity, cart)
      ensures notice == AddedToCart ==> CartCount(next) > CartCount(cart) && UniqueKeys(next)
      ensures notice != AddedToCart ==> next == cart
    {
      var r := HandleAddToCart(p, selectedSize, quantity, cart);
      if r.0 == AddedToCart {
        AddedGrowsCount(p, selectedSize, quantity, cart);
      }
      notice, next := r.0, r.1;
    }
  }

  /**
   * Selections made only through the size buttons never pick a size without
   * stock: after any clicks from the initial state, the selection is empty or
   * the size of a clicked entry with positive stock.
   */
  lemma {:induction false} ClicksSelectStockedSizes(clicks: seq<SizeStock>)
    ensures var s := AfterClicks([], clicks);
      s == [] || exists k :: 0 <= k < |clicks| && clicks[k].stock > 0 && clicks[k].size == s
  {
    if clicks != [] {
      var n := |clicks| - 1;
      ClicksSelectStockedSizes(clicks[..n]);
      var before := AfterClicks([], clicks[..n]);
      if before != [] && clicks[n].stock <= 0 {
        var k :| 0 <= k < n && clicks[..n][k].stock > 0 && clicks[..n][k].size == before;
        assert clicks[k] == clicks[..n][k];
      }
    }
  }

  /** The selection after one click on the button of `entry`: its size when it has stock, else unchanged. */
  function ClickedSize(selected: string, entry: SizeStock): string {
    if entry.stock > 0 then entry.size else selected
  }

  /** The selected size after a series of size clicks, each one a ClickSize step. */
  function AfterClicks(selected: string, clicks: seq<SizeStock>): string {
    if clicks == [] then selected
    else ClickedSize(AfterClicks(selected, clicks[..|clicks| - 1]), clicks[|clicks| - 1])
  }
}
