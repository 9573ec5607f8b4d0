/** The listing order check (core/validation/order/PageOrderValidator.java). */
module PageOrderValidator {
  import opened Wrappers

  const Desc := "desc"
  const Asc := "asc"

  /** A missing order (null) passes; a supplied one must be exactly "desc"
      or "asc", compared case-sensitively. */
  predicate IsValidOrder(order: Option<string>)
    ensures order == None ==> IsValidOrder(order)
    ensures IsValidOrder(order) && order.Some? ==>
      |order.value| in {3, 4} && forall i :: 0 <= i < |order.value| ==> 'a' <= order.value[i] <= 'z'
  {
    order == None || order == Some(Desc) || order == Some(Asc)
  }

  /** Case matters and nothing is trimmed: near misses are rejected. */
  lemma RejectsNearMisses()
    ensures !IsValidOrder(Some("")) && !IsValidOrder(Some("ASC")) && !IsValidOrder(Some("Desc"))
    ensures !IsValidOrder(Some(" asc")) && !IsValidOrder(Some("ascending"))
    ensures IsValidOrder(None) && IsValidOrder(Some("asc")) && IsValidOrder(Some("desc"))
  {
  }
}
