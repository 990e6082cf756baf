// The shopping cart of the storefront (frontend/src/context/CartContext.jsx):
// a list of line entries keyed by (product id, size). Each updater computes a
// new list from the previous one; total and count are reductions.
module Cart {
  import opened Results

  /** What the cart reads from a catalogue product when it is added. */
  datatype ProductCard = ProductCard(id: string, name: string, price: int, images: seq<string>)

  /** One cart entry; `image` is `None` when the product had no image (`images[0]` is undefined). */
  datatype CartItem = CartItem(productId: string, name: string, price: int, image: Option<string>, size: string, quantity: int)

  function FirstImage(images: seq<string>): Option<string> {
    if images == [] then None else Some(images[0])
  }

  predicate HasKey(item: CartItem, pid: string, size: string) {
    item.productId == pid && item.size == size
  }

  predicate InCart(cart: seq<CartItem>, pid: string, size: string) {
    exists i :: 0 <= i < |cart| && HasKey(cart[i], pid, size)
  }

  /** The cart's invariant: at most one entry per (product id, size). */
  predicate UniqueKeys(cart: seq<CartItem>) {
    forall i, j :: 0 <= i < j < |cart| ==> !HasKey(cart[j], cart[i].productId, cart[i].size)
  }

  /** `quantity + q` on an entry, as the merge in addToCart writes it. */
  function Bump(item: CartItem, q: int): CartItem {
    item.(quantity := item.quantity + q)
  }

  /** `cart.map(item => key matches ? {...item, quantity: q} : item)`, the shape of both updates. */
  function MapKey(cart: seq<CartItem>, pid: string, size: string, bump: bool, q: int): (r: seq<CartItem>)
    ensures |r| == |cart|
    ensures forall i :: 0 <= i < |cart| ==>
      r[i] == if !HasKey(cart[i], pid, size) then cart[i] else if bump then Bump(cart[i], q) else cart[i].(quantity := q)
  {
    if cart == [] then []
    else
      var n := |cart| - 1;
      var item := cart[n];
      MapKey(cart[..n], pid, size, bump, q) + [if !HasKey(item, pid, size) then item else if bump then Bump(item, q) else item.(quantity := q)]
  }

  /**
   * addToCart: an entry already holding (product, size) has its quantity
   * raised by `quantity` and nothing else changes; otherwise one entry is
   * appended carrying the product's id, name, price and first image. The
   * caller's default quantity is 1.
   */
  function AddToCart(cart: seq<CartItem>, p: ProductCard, size: string, quantity: int): (r: seq<CartItem>)
    ensures InCart(cart, p.id, size) ==>
      && |r| == |cart|
      && forall i :: 0 <= i < |cart| ==> r[i] == if HasKey(cart[i], p.id, size) then Bump(cart[i], quantity) else cart[i]
    ensures !InCart(cart, p.id, size) ==>
      && |r| == |cart| + 1 && r[..|cart|] == cart
      && r[|cart|] == CartItem(p.id, p.name, p.price, FirstImage(p.images), size, quantity)
  {
    if InCart(cart, p.id, size) then MapKey(cart, p.id, size, true, quantity)
    else cart + [CartItem(p.id, p.name, p.price, FirstImage(p.images), size, quantity)]
  }

  /**
   * addToCart called without a quantity: the default of 1 applies, so a new
   * key is appended with quantity 1 and an existing entry grows by one.
   */
  function AddOne(cart: seq<CartItem>, p: ProductCard, size: string): (r: seq<CartItem>)
    ensures r == AddToCart(cart, p, size, 1)
    ensures !InCart(cart, p.id, size) ==>
      |r| == |cart| + 1 && r[|cart|].quantity == 1 && HasKey(r[|cart|], p.id, size)
    ensures InCart(cart, p.id, size) ==>
      |r| == |cart| && forall i :: 0 <= i < |cart| && HasKey(cart[i], p.id, size) ==> r[i].quantity == cart[i].quantity + 1
  {
    AddToCart(cart, p, size, 1)
  }

  /** On a cart with one entry per key, adding with the default quantity keeps that and counts one more item. */
  lemma AddOneCountsOne(cart: seq<CartItem>, p: ProductCard, size: string)
    requires UniqueKeys(cart)
    ensures UniqueKeys(AddOne(cart, p, size)) && CartCount(AddOne(cart, p, size)) == CartCount(cart) + 1
  {
    AddToCartCount(cart, p, size, 1);
    AddToCartKeepsUnique(cart, p, size, 1);
  }

  /** removeFromCart: every entry with the key goes, the others stay in their order. */
  function RemoveFromCart(cart: seq<CartItem>, pid: string, size: string): (r: seq<CartItem>)
    ensures |r| <= |cart|
    ensures !InCart(r, pid, size)
    ensures forall i :: 0 <= i < |r| ==> r[i] in cart
  {
    if cart == [] then []
    else
      var n := |cart| - 1;
      var front := RemoveFromCart(cart[..n], pid, size);
      assert cart == cart[..n] + [cart[n]];
      if HasKey(cart[n], pid, size) then front
      else
        var r := front + [cart[n]];
        assert forall i :: 0 <= i < |front| ==> r[i] == front[i];
        r
  }

  /** updateQuantity: a quantity of zero or less removes the entry; otherwise it is set on the keyed entry only. */
  function UpdateQuantity(cart: seq<CartItem>, pid: string, size: string, quantity: int): (r: seq<CartItem>)
    ensures quantity <= 0 ==> r == RemoveFromCart(cart, pid, size)
    ensures quantity > 0 ==>
      && |r| == |cart|
      && forall i :: 0 <= i < |cart| ==> r[i] == if HasKey(cart[i], pid, size) then cart[i].(quantity := quantity) else cart[i]
  {
    if quantity <= 0 then RemoveFromCart(cart, pid, size)
    else MapKey(cart, pid, size, false, quantity)
  }

  /** getCartTotal: the sum of price times quantity, reduced from the left; never negative for non-negative entries. */
  function CartTotal(cart: seq<CartItem>): (t: int)
    ensures (forall i :: 0 <= i < |cart| ==> cart[i].price >= 0 && cart[i].quantity >= 0) ==> t >= 0
  {
    if cart == [] then 0
    else
      var front := cart[..|cart| - 1];
      assert forall i :: 0 <= i < |front| ==> front[i] == cart[i];
      CartTotal(front) + cart[|cart| - 1].price * cart[|cart| - 1].quantity
  }

  /** getCartCount: the sum of quantities, reduced from the left; with non-negative quantities, at least each one. */
  function CartCount(cart: seq<CartItem>): (n: int)
    ensures (forall i :: 0 <= i < |cart| ==> cart[i].quantity >= 0) ==>
      && n >= 0
      && forall i :: 0 <= i < |cart| ==> cart[i].quantity <= n
  {
    if cart == [] then 0
    else
      var front := cart[..|cart| - 1];
      assert forall i :: 0 <= i < |front| ==> front[i] == cart[i];
      CartCount(front) + cart[|cart| - 1].quantity
  }

  /** clearCart: the cart becomes empty, so it holds nothing and costs nothing. */
  function ClearCart(): (r: seq<CartItem>)
    ensures |r| == 0 && CartTotal(r) == 0 && CartCount(r) == 0
  {
    []
  }

  /** An update that matches no entry changes nothing. */
  lemma {:induction false} MapKeyAbsent(cart: seq<CartItem>, pid: string, size: string, bump: bool, q: int)
    requires !InCart(cart, pid, size)
    ensures MapKey(cart, pid, size, bump, q) == cart
  {
    var r := MapKey(cart, pid, size, bump, q);
    assert forall i :: 0 <= i < |cart| ==> r[i] == cart[i];
  }

  /** With one entry per key, merging into an existing entry raises the count by exactly `q`. */
  lemma {:induction false} BumpCount(cart: seq<CartItem>, pid: string, size: string, q: int)
    requires UniqueKeys(cart) && InCart(cart, pid, size)
    ensures CartCount(MapKey(cart, pid, size, true, q)) == CartCount(cart) + q
  {
    var n := |cart| - 1;
    var front := cart[..n];
    var r := MapKey(cart, pid, size, true, q);
    assert r[..n] == MapKey(front, pid, size, true, q);
    if HasKey(cart[n], pid, size) {
      assert !InCart(front, pid, size);
      MapKeyAbsent(front, pid, size, true, q);
    } else {
      assert InCart(front, pid, size);
      BumpCount(front, pid, size, q);
    }
  }

  /** After addToCart(p, size, q) the count grows by exactly q. */
  lemma AddToCartCount(cart: seq<CartItem>, p: ProductCard, size: string, q: int)
    requires UniqueKeys(cart)
    ensures CartCount(AddToCart(cart, p, size, q)) == CartCount(cart) + q
  {
    var r := AddToCart(cart, p, size, q);
    if InCart(cart, p.id, size) {
      BumpCount(cart, p.id, size, q);
    } else {
      assert r[..|r| - 1] == cart;
    }
  }

  /** Adding a new key raises the total by that product's price times `q`. */
  lemma AddNewTotal(cart: seq<CartItem>, p: ProductCard, size: string, q: int)
    requires !InCart(cart, p.id, size)
    ensures CartTotal(AddToCart(cart, p, size, q)) == CartTotal(cart) + p.price * q
  {
    var r := AddToCart(cart, p, size, q);
    assert r[..|r| - 1] == cart;
  }

  /** addToCart keeps at most one entry per key. */
  lemma AddToCartKeepsUnique(cart: seq<CartItem>, p: ProductCard, size: string, q: int)
    requires UniqueKeys(cart)
    ensures UniqueKeys(AddToCart(cart, p, size, q))
  {
    var r := AddToCart(cart, p, size, q);
    assert forall i :: 0 <= i < |cart| ==> r[i].productId == cart[i].productId && r[i].size == cart[i].size;
  }

  /** updateQuantity keeps at most one entry per key. */
  lemma UpdateQuantityKeepsUnique(cart: seq<CartItem>, pid: string, size: string, q: int)
    requires UniqueKeys(cart)
    ensures UniqueKeys(UpdateQuantity(cart, pid, size, q))
  {
    if q <= 0 {
      RemoveKeepsUnique(cart, pid, size);
    } else {
      var r := UpdateQuantity(cart, pid, size, q);
      assert forall i :: 0 <= i < |cart| ==> r[i].productId == cart[i].productId && r[i].size == cart[i].size;
    }
  }

  /** removeFromCart keeps at most one entry per key. */
  lemma {:induction false} RemoveKeepsUnique(cart: seq<CartItem>, pid: string, size: string)
    requires UniqueKeys(cart)
    ensures UniqueKeys(RemoveFromCart(cart, pid, size))
  {
    if cart != [] {
      var n := |cart| - 1;
      var front := RemoveFromCart(cart[..n], pid, size);
      RemoveKeepsUnique(cart[..n], pid, size);
      if !HasKey(cart[n], pid, size) {
        var r := front + [cart[n]];
        forall i | 0 <= i < |front|
          ensures !HasKey(cart[n], front[i].productId, front[i].size)
        {
          var k :| 0 <= k < n && cart[k] == front[i];
        }
      }
    }
  }

  /** Every entry without the key survives removal as often as it occurs. */
  lemma {:induction false} RemoveKeepsOthers(cart: seq<CartItem>, pid: string, size: string, item: CartItem)
    requires !HasKey(item, pid, size)
    ensures multiset(RemoveFromCart(cart, pid, size))[item] == multiset(cart)[item]
  {
    if cart != [] {
      var n := |cart| - 1;
      RemoveKeepsOthers(cart[..n], pid, size, item);
      assert cart == cart[..n] + [cart[n]];
    }
  }

  /** Removing a key the cart does not hold changes nothing. */
  lemma {:induction false} RemoveAbsent(cart: seq<CartItem>, pid: string, size: string)
    requires !InCart(cart, pid, size)
    ensures RemoveFromCart(cart, pid, size) == cart
  {
    if cart != [] {
      var n := |cart| - 1;
      RemoveAbsent(cart[..n], pid, size);
      assert cart == cart[..n] + [cart[n]];
    }
  }

  /** With one entry per key, removing the key of entry k leaves the others in their order. */
  lemma {:induction false} RemoveKeepsOrder(cart: seq<CartItem>, pid: string, size: string, k: nat)
    requires UniqueKeys(cart) && k < |cart| && HasKey(cart[k], pid, size)
    ensures RemoveFromCart(cart, pid, size) == cart[..k] + cart[k + 1..]
  {
    var n := |cart| - 1;
    if k == n {
      RemoveKeyAtEnd(cart, pid, size);
    } else {
      var front := cart[..n];
      assert UniqueKeys(front);
      RemoveKeepsOrder(front, pid, size, k);
      RemoveStepKeeps(cart, pid, size, k);
      SpliceOfSnoc(front, cart[n], k);
    }
  }

  /** Removing the key of the last entry, held by no other entry, drops just that entry. */
  lemma RemoveKeyAtEnd(cart: seq<CartItem>, pid: string, size: string)
    requires UniqueKeys(cart) && cart != [] && HasKey(cart[|cart| - 1], pid, size)
    ensures RemoveFromCart(cart, pid, size) == cart[..|cart| - 1]
  {
    var front := cart[..|cart| - 1];
    forall i | 0 <= i < |front|
      ensures !HasKey(front[i], pid, size)
    {
      assert front[i] == cart[i];
    }
    RemoveAbsent(front, pid, size);
  }

  /** A last entry with another key than entry k's survives the removal of k's key. */
  lemma RemoveStepKeeps(cart: seq<CartItem>, pid: string, size: string, k: nat)
    requires UniqueKeys(cart) && k < |cart| - 1 && HasKey(cart[k], pid, size)
    ensures RemoveFromCart(cart, pid, size) == RemoveFromCart(cart[..|cart| - 1], pid, size) + [cart[|cart| - 1]]
    ensures cart == cart[..|cart| - 1] + [cart[|cart| - 1]]
  {
    assert !HasKey(cart[|cart| - 1], pid, size);
  }

  lemma SpliceOfSnoc(front: seq<CartItem>, x: CartItem, k: nat)
    requires k < |front|
    ensures (front + [x])[..k] + (front + [x])[k + 1..] == front[..k] + front[k + 1..] + [x]
  {
    var c := front + [x];
    assert c[..k] == front[..k];
    assert c[k + 1..] == front[k + 1..] + [x];
  }

  /** Removing a key right after adding it as new gives back the cart before the add. */
  lemma RemoveUndoesAdd(cart: seq<CartItem>, p: ProductCard, size: string, q: int)
    requires !InCart(cart, p.id, size)
    ensures RemoveFromCart(AddToCart(cart, p, size, q), p.id, size) == cart
  {
    var r := AddToCart(cart, p, size, q);
    assert r[..|cart|] == cart;
    RemoveAbsent(cart, p.id, size);
  }
}
