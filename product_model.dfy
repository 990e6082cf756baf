// The product document of the catalogue: its schema constraints, its
// defaults and the `totalStock` virtual (backend/models/Product.js).
module ProductModel {
  import opened Results
  import opened Strings

  type ProductId = string
  type UserId = string

  /** One entry of `sizes`: a size label and its stock counter. */
  datatype SizeStock = SizeStock(size: string, stock: int)

  datatype Review = Review(user: UserId, name: string, rating: real, comment: string, createdAt: int)

  datatype Product = Product(
    name: string,
    description: string,
    price: int,
    images: seq<string>,
    category: string,
    sizes: seq<SizeStock>,
    reviews: seq<Review>,
    rating: real,
    numReviews: int,
    featured: bool,
    isTrending: bool,
    isNewArrival: bool,
    isBestSeller: bool,
    createdAt: int)

  const SizeLabels: seq<string> := ["XS", "S", "M", "L", "XL", "XXL"]

  predicate ValidSize(s: string) {
    s in SizeLabels
  }

  predicate ValidCategory(c: string) {
    c == "T-Shirt" || c == "Hoodie"
  }

  predicate ValidSizeStock(e: SizeStock) {
    ValidSize(e.size) && e.stock >= 0
  }

  predicate ValidReview(r: Review) {
    r.user != [] && r.name != [] && r.comment != [] && 1.0 <= r.rating <= 5.0
  }

  /** Everything the schema's validators demand of a stored product. */
  predicate ValidProduct(p: Product) {
    && p.name != []
    && p.description != []
    && p.price >= 0
    && (forall i :: 0 <= i < |p.images| ==> p.images[i] != [])
    && ValidCategory(p.category)
    && (forall i :: 0 <= i < |p.sizes| ==> ValidSizeStock(p.sizes[i]))
    && (forall i :: 0 <= i < |p.reviews| ==> ValidReview(p.reviews[i]))
  }

  /**
   * The `totalStock` virtual: the stock counters summed from the left. With
   * valid counters it is non-negative and at least each single counter.
   */
  function TotalStock(sizes: seq<SizeStock>): (t: int)
    ensures (forall i :: 0 <= i < |sizes| ==> ValidSizeStock(sizes[i])) ==>
      && t >= 0
      && forall i :: 0 <= i < |sizes| ==> sizes[i].stock <= t
  {
    if sizes == [] then 0
    else
      var front := sizes[..|sizes| - 1];
      assert forall i :: 0 <= i < |front| ==> front[i] == sizes[i];
      TotalStock(front) + sizes[|sizes| - 1].stock
  }

  /** Replacing one counter moves the total by exactly the difference. */
  lemma {:induction false} TotalStockAfterSet(sizes: seq<SizeStock>, i: nat, v: int)
    requires i < |sizes|
    ensures TotalStock(sizes[i := SizeStock(sizes[i].size, v)]) == TotalStock(sizes) - sizes[i].stock + v
  {
    var n := |sizes| - 1;
    var updated := sizes[i := SizeStock(sizes[i].size, v)];
    assert updated[..n] == if i < n then sizes[..n][i := SizeStock(sizes[i].size, v)] else sizes[..n];
    if i < n {
      TotalStockAfterSet(sizes[..n], i, v);
    }
  }

  /** `sizes.find(s => s.size === size)`: the index of the first entry with that label. */
  function FindSize(sizes: seq<SizeStock>, size: string): (r: Option<nat>)
    ensures r.Some? ==> r.value < |sizes| && sizes[r.value].size == size
    ensures r.Some? ==> forall j :: 0 <= j < r.value ==> sizes[j].size != size
    ensures r.None? <==> forall j :: 0 <= j < |sizes| ==> sizes[j].size != size
  {
    if sizes == [] then None
    else if sizes[0].size == size then Some(0)
    else match FindSize(sizes[1..], size)
      case None => None
      case Some(j) => Some(j + 1)
  }

  /** `reviews.find(r => r.user === user)` found something. */
  predicate ReviewedBy(reviews: seq<Review>, user: UserId) {
    exists i :: 0 <= i < |reviews| && reviews[i].user == user
  }

  /** At most one review per user. */
  predicate OneReviewPerUser(reviews: seq<Review>) {
    forall i, j :: 0 <= i < j < |reviews| ==> reviews[i].user != reviews[j].user
  }

  /** The ratings summed from the left, as the `reduce` in the handlers does. */
  function RatingSum(reviews: seq<Review>): real {
    if reviews == [] then 0.0 else RatingSum(reviews[..|reviews| - 1]) + reviews[|reviews| - 1].rating
  }

  function MeanRating(reviews: seq<Review>): real
    requires reviews != []
  {
    RatingSum(reviews) / (|reviews| as real)
  }

  /** Push a review, then recompute `numReviews` as the list length and `rating` as the arithmetic mean. */
  function WithReview(p: Product, r: Review): (q: Product)
    ensures q.reviews == p.reviews + [r]
    ensures q.numReviews == |q.reviews| && q.rating == MeanRating(q.reviews)
    ensures q.(reviews := p.reviews, numReviews := p.numReviews, rating := p.rating) == p
  {
    var reviews := p.reviews + [r];
    p.(reviews := reviews, numReviews := |reviews|, rating := MeanRating(reviews))
  }

  lemma {:induction false} RatingSumBounds(reviews: seq<Review>)
    requires forall i :: 0 <= i < |reviews| ==> ValidReview(reviews[i])
    ensures |reviews| as real <= RatingSum(reviews) <= 5.0 * (|reviews| as real)
  {
    if reviews != [] {
      RatingSumBounds(reviews[..|reviews| - 1]);
    }
  }

  /** The mean of valid reviews is itself a valid star rating. */
  lemma MeanRatingBounds(reviews: seq<Review>)
    requires reviews != []
    requires forall i :: 0 <= i < |reviews| ==> ValidReview(reviews[i])
    ensures 1.0 <= MeanRating(reviews) <= 5.0
  {
    RatingSumBounds(reviews);
    DivBounds(RatingSum(reviews), |reviews| as real, 1.0, 5.0);
  }

  lemma DivBounds(s: real, n: real, lo: real, hi: real)
    requires n > 0.0 && lo * n <= s <= hi * n
    ensures lo <= s / n <= hi
  {
    assert (hi * n) / n == hi;
    assert (lo * n) / n == lo;
    assert s / n - (lo * n) / n == (s - lo * n) / n;
    assert (hi * n) / n - s / n == (hi * n - s) / n;
  }

  /** A review from a user who has not reviewed the product keeps one review per user. */
  lemma WithReviewKeepsOnePerUser(p: Product, r: Review)
    requires OneReviewPerUser(p.reviews) && !ReviewedBy(p.reviews, r.user)
    ensures OneReviewPerUser(WithReview(p, r).reviews)
  {
    var q := WithReview(p, r);
    assert forall i :: 0 <= i < |p.reviews| ==> q.reviews[i] == p.reviews[i];
  }

  /** A valid review keeps the product valid, and the recomputed rating within [1, 5]. */
  lemma WithReviewKeepsValid(p: Product, r: Review)
    requires ValidProduct(p) && ValidReview(r)
    ensures ValidProduct(WithReview(p, r))
    ensures 1.0 <= WithReview(p, r).rating <= 5.0
  {
    var q := WithReview(p, r);
    assert forall i :: 0 <= i < |p.reviews| ==> q.reviews[i] == p.reviews[i];
    MeanRatingBounds(q.reviews);
  }

  /** A size entry as submitted: the stock may be left out. */
  datatype SizeDraft = SizeDraft(size: string, stock: Option<int>)

  /** A product as submitted to `Product.create`; absent fields take the schema defaults. */
  datatype ProductDraft = ProductDraft(
    name: string,
    description: string,
    price: int,
    images: seq<string>,
    category: string,
    sizes: seq<SizeDraft>,
    rating: Option<real>,
    numReviews: Option<int>,
    featured: Option<bool>,
    isTrending: Option<bool>,
    isNewArrival: Option<bool>,
    isBestSeller: Option<bool>)

  function OrElse<T>(o: Option<T>, default: T): T {
    match o
    case Some(v) => v
    case None => default
  }

  /** A submitted size entry as stored: the label kept, the stock as given or 0. */
  function SizeWithDefault(d: SizeDraft): (e: SizeStock)
    ensures e.size == d.size
    ensures d.stock.Some? ==> e.stock == d.stock.value
    ensures d.stock.None? ==> e.stock == 0
  {
    SizeStock(d.size, OrElse(d.stock, 0))
  }

  /** The document `Product.create` builds: name trimmed, defaults filled in, no reviews. */
  function MakeProduct(d: ProductDraft, now: int): (p: Product)
    ensures p.name == Trim(d.name)
    ensures p.description == d.description && p.price == d.price && p.images == d.images && p.category == d.category
    ensures |p.sizes| == |d.sizes|
    ensures forall i :: 0 <= i < |d.sizes| ==> p.sizes[i] == SizeWithDefault(d.sizes[i])
    ensures p.reviews == []
    ensures p.rating == OrElse(d.rating, 0.0) && p.numReviews == OrElse(d.numReviews, 0)
    ensures p.featured == OrElse(d.featured, false) && p.isTrending == OrElse(d.isTrending, false)
    ensures p.isNewArrival == OrElse(d.isNewArrival, false) && p.isBestSeller == OrElse(d.isBestSeller, false)
    ensures p.createdAt == now
  {
    Product(
      Trim(d.name), d.description, d.price, d.images, d.category,
      seq(|d.sizes|, i requires 0 <= i < |d.sizes| => SizeWithDefault(d.sizes[i])),
      [], OrElse(d.rating, 0.0), OrElse(d.numReviews, 0),
      OrElse(d.featured, false), OrElse(d.isTrending, false),
      OrElse(d.isNewArrival, false), OrElse(d.isBestSeller, false), now)
  }

  /** A draft that gives no counts, flags or aggregates yields a fresh, empty product. */
  lemma DefaultsOfBareDraft(d: ProductDraft, now: int)
    requires forall i :: 0 <= i < |d.sizes| ==> d.sizes[i].stock.None?
    requires d.rating.None? && d.numReviews.None?
    requires d.featured.None? && d.isTrending.None? && d.isNewArrival.None? && d.isBestSeller.None?
    ensures var p := MakeProduct(d, now);
      && TotalStock(p.sizes) == 0
      && p.rating == 0.0 && p.numReviews == 0
      && !p.featured && !p.isTrending && !p.isNewArrival && !p.isBestSeller
      && p.createdAt == now
  {
    var p := MakeProduct(d, now);
    forall i | 0 <= i < |p.sizes|
      ensures p.sizes[i].stock == 0
    {
      assert p.sizes[i] == SizeWithDefault(d.sizes[i]);
    }
    ZeroStockTotal(p.sizes);
  }

  lemma {:induction false} ZeroStockTotal(sizes: seq<SizeStock>)
    requires forall i :: 0 <= i < |sizes| ==> sizes[i].stock == 0
    ensures TotalStock(sizes) == 0
  {
    if sizes != [] {
      ZeroStockTotal(sizes[..|sizes| - 1]);
    }
  }

  /** What a draft must satisfy for `Product.create` to accept it. */
  predicate ValidDraft(d: ProductDraft) {
    && Trim(d.name) != []
    && d.description != []
    && d.price >= 0
    && (forall i :: 0 <= i < |d.images| ==> d.images[i] != [])
    && ValidCategory(d.category)
    && (forall i :: 0 <= i < |d.sizes| ==>
          ValidSize(d.sizes[i].size) && (d.sizes[i].stock.Some? ==> d.sizes[i].stock.value >= 0))
  }

  /** The defaults never break a validator: a draft is accepted iff the document built from it is valid. */
  lemma DraftAcceptedIffValid(d: ProductDraft, now: int)
    ensures ValidDraft(d) <==> ValidProduct(MakeProduct(d, now))
  {
    var p := MakeProduct(d, now);
    DefaultedSizesValid(d.sizes, p.sizes);
    assert p.reviews == [];
  }

  /** The stock default keeps a submitted size entry valid exactly when the entry is. */
  lemma DefaultedSizesValid(ds: seq<SizeDraft>, es: seq<SizeStock>)
    requires |es| == |ds| && forall i :: 0 <= i < |ds| ==> es[i] == SizeWithDefault(ds[i])
    ensures (forall i :: 0 <= i < |es| ==> ValidSizeStock(es[i])) <==>
      (forall i :: 0 <= i < |ds| ==> ValidSize(ds[i].size) && (ds[i].stock.Some? ==> ds[i].stock.value >= 0))
  {
    forall i | 0 <= i < |ds|
      ensures ValidSizeStock(es[i]) <==> ValidSize(ds[i].size) && (ds[i].stock.Some? ==> ds[i].stock.value >= 0)
    {
    }
  }
}
