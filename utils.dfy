/** Java references that may be null, and the library's emptiness test. */
module Utils {

  /** A Java reference of type `T` that may be `null`. */
  datatype Nullable<T> = Null | Ref(value: T)

  /** `Utils.isEmptyOrNull` on a collection or an array: null, or no elements. */
  predicate IsEmptyOrNull<T>(c: Nullable<seq<T>>)
  {
    c.Null? || |c.value| == 0
  }
}
