/** The deliberately vulnerable shop (`xss/server.js`): product search, the product page
    with its reviews, and posting a review. The catalogue and the review list are
    values; a posted review returns the new list. */
module Shop {
  import opened Wrappers
  import opened JsText

  datatype Product = Product(id: int, name: string, price: int, description: string, image: string)

  /** `productId` is `None` when `parseInt` gave NaN. */
  datatype Review = Review(id: int, productId: Option<int>, author: string, rating: int, comment: string, date: string)

  // ---------------------------------------------------------------------------
  // /search
  // ---------------------------------------------------------------------------

  /** The filter of `/search`: the lower-cased name or description contains the
      lower-cased query. */
  predicate Matches(p: Product, query: string) {
    Contains(Lower(p.name), Lower(query)) || Contains(Lower(p.description), Lower(query))
  }

  /** `GET /search?q=`: the matching products in catalogue order; a missing query is ''. */
  function Search(products: seq<Product>, q: Option<string>): (r: seq<Product>)
    ensures |r| <= |products|
    ensures forall p :: p in r <==> p in products && Matches(p, OrElse(q, ""))
  {
    if |products| == 0 then []
    else
      var rest := Search(products[1..], q);
      assert products == [products[0]] + products[1..];
      if Matches(products[0], OrElse(q, "")) then [products[0]] + rest else rest
  }

  /** Search keeps the catalogue's order: it distributes over concatenation. */
  lemma {:induction false} SearchAppend(a: seq<Product>, b: seq<Product>, q: Option<string>)
    ensures Search(a + b, q) == Search(a, q) + Search(b, q)
  {
    if |a| == 0 {
      assert a + b == b;
    } else {
      assert (a + b)[1..] == a[1..] + b;
      SearchAppend(a[1..], b, q);
    }
  }

  /** A missing or empty query lists every product. */
  lemma {:induction false} EmptyQueryListsAll(products: seq<Product>, q: Option<string>)
    requires !Truthy(q)
    ensures Search(products, q) == products
  {
    if |products| > 0 {
      ContainsEmpty(Lower(products[0].name));
      EmptyQueryListsAll(products[1..], q);
      assert products == [products[0]] + products[1..];
    }
  }

  // ---------------------------------------------------------------------------
  // /product/:id
  // ---------------------------------------------------------------------------

  /** `i` is the position of the first product with the id. */
  predicate IsFirst(products: seq<Product>, id: int, i: int) {
    0 <= i < |products| && products[i].id == id && forall j :: 0 <= j < i ==> products[j].id != id
  }

  /** `products.find(p => p.id === productId)`: the first product with the id; NaN
      equals nothing. */
  function FindProduct(products: seq<Product>, id: Option<int>): (r: Option<Product>)
    ensures r.Some? <==> id.Some? && exists p :: p in products && p.id == id.value
    ensures r.Some? ==> exists i :: IsFirst(products, id.value, i) && products[i] == r.value
  {
    if id.None? || |products| == 0 then None
    else if products[0].id == id.value then
      assert IsFirst(products, id.value, 0);
      Some(products[0])
    else
      var r := FindProduct(products[1..], id);
      assert forall p :: p in products <==> p == products[0] || p in products[1..];
      if r.Some? then
        var i :| IsFirst(products[1..], id.value, i) && products[1..][i] == r.value;
        assert IsFirst(products, id.value, i + 1) by {
          forall j | 0 <= j < i + 1 ensures products[j].id != id.value {
            if j > 0 {
              assert products[j] == products[1..][j - 1];
            }
          }
        }
        r
      else r
  }

  /** `reviews.filter(r => r.productId === productId)` */
  function ReviewsOf(reviews: seq<Review>, id: Option<int>): (r: seq<Review>)
    ensures forall x :: x in r <==> x in reviews && id.Some? && x.productId == id
  {
    if |reviews| == 0 then []
    else
      var rest := ReviewsOf(reviews[1..], id);
      assert reviews == [reviews[0]] + reviews[1..];
      if id.Some? && reviews[0].productId == id then [reviews[0]] + rest else rest
  }

  lemma {:induction false} ReviewsOfAppend(a: seq<Review>, b: seq<Review>, id: Option<int>)
    ensures ReviewsOf(a + b, id) == ReviewsOf(a, id) + ReviewsOf(b, id)
  {
    if |a| == 0 {
      assert a + b == b;
    } else {
      assert (a + b)[1..] == a[1..] + b;
      ReviewsOfAppend(a[1..], b, id);
    }
  }

  datatype ProductReply = NotFound | Page(product: Product, reviews: seq<Review>)

  /** `GET /product/:id` */
  function ProductPage(products: seq<Product>, reviews: seq<Review>, idParam: string): (r: ProductReply)
    ensures r.NotFound? <==> FindProduct(products, ParseInt(idParam)).None?
    ensures r.Page? ==> r.product in products && Some(r.product.id) == ParseInt(idParam)
    ensures r.Page? ==> r.reviews == ReviewsOf(reviews, ParseInt(idParam))
  {
    var id := ParseInt(idParam);
    match FindProduct(products, id)
    case None => NotFound
    case Some(p) => Page(p, ReviewsOf(reviews, id))
  }

  // ---------------------------------------------------------------------------
  // /product/:id/review
  // ---------------------------------------------------------------------------

  /** `parseInt(rating) || 5`: NaN and 0 both fall back to 5. */
  function Rating(rating: Option<string>): (r: int)
    ensures r != 0
    ensures rating.Some? && ParseInt(rating.value).Some? && ParseInt(rating.value).value != 0 ==>
      r == ParseInt(rating.value).value
    ensures rating.None? || ParseInt(rating.value).None? || ParseInt(rating.value) == Some(0) ==> r == 5
  {
    if rating.None? then 5
    else match ParseInt(rating.value)
      case None => 5
      case Some(n) => if n != 0 then n else 5
  }

  /** `POST /product/:id/review`: the review is appended last, numbered after the
      existing ones, with the author, rating and comment defaults. */
  function PostReview(reviews: seq<Review>, idParam: string, author: Option<string>, rating: Option<string>,
                      comment: Option<string>, now: string): (r: seq<Review>)
    ensures |r| == |reviews| + 1 && r[..|reviews|] == reviews
    ensures var added := r[|reviews|];
      && added.id == |reviews| + 1
      && added.productId == ParseInt(idParam)
      && added.author == (if Truthy(author) then author.value else "匿名")
      && added.rating == Rating(rating)
      && added.comment == (if Truthy(comment) then comment.value else "")
      && added.date == now
  {
    reviews + [Review(|reviews| + 1, ParseInt(idParam), OrElse(author, "匿名"), Rating(rating), OrElse(comment, ""), now)]
  }

  /** A review posted to an existing product is the last one its page shows; pages of
      other products do not change. */
  lemma PostedReviewShows(products: seq<Product>, reviews: seq<Review>, idParam: string, author: Option<string>,
                          rating: Option<string>, comment: Option<string>, now: string, other: string)
    requires ProductPage(products, reviews, idParam).Page?
    requires ParseInt(other) != ParseInt(idParam)
    ensures var after := PostReview(reviews, idParam, author, rating, comment, now);
      && ProductPage(products, after, idParam).Page?
      && ProductPage(products, after, idParam).reviews == ProductPage(products, reviews, idParam).reviews + [after[|reviews|]]
      && ProductPage(products, after, other) == ProductPage(products, reviews, other)
  {
    var after := PostReview(reviews, idParam, author, rating, comment, now);
    var added := after[|reviews|];
    assert after == reviews + [added];
    ReviewsOfAppend(reviews, [added], ParseInt(idParam));
    ReviewsOfAppend(reviews, [added], ParseInt(other));
    assert ReviewsOf([added], ParseInt(idParam)) == [added];
  }
}
