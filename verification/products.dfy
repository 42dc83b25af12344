/**
 The product record shared by the cart store and the product list.
 Prices and ratings are JavaScript numbers in the source; here they are exact
 reals, so sums and comparisons carry no rounding.
 */
module Products {

  datatype Product = Product(
    id: int,
    title: string,
    description: string,
    price: real,
    rating: real,
    thumbnail: string
  )

}
