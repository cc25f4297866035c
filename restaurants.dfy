/** The restaurant table the dashboard loads once from its CSV file and only reads. */
module Restaurants {

  /** A value that may be absent, such as the mean of an empty column. */
  datatype Option<T> = None | Some(value: T)

  /**
   * One row of the table. `rating` is Google_Rating, `reviews` is Reviews and
   * `distance` is Distance (meters); ratings, distances and coordinates are
   * modelled as exact reals.
   */
  datatype Restaurant = Restaurant(
    name: string,
    city: string,
    category: string,
    rating: real,
    reviews: nat,
    distance: real,
    latitude: real,
    longitude: real)
}
