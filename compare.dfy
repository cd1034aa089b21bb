/** The comparator of the list kit: a three-way comparison of node payloads. */
module Compare {

  datatype Ordering = Less | Equal | Greater

  /** cmp_func: compares the `item` payloads of two nodes. */
  function CmpFunc(x: int, y: int): (o: Ordering)
    ensures o == Less <==> x < y
    ensures o == Greater <==> y < x
    ensures o == Equal <==> x == y
  {
    if x < y then Less else if x > y then Greater else Equal
  }
}
