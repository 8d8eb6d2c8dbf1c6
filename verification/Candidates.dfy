/** What a balancer reads of a backend. */
module Candidates {
  datatype Member = Member(id: string, weight: nat)

  function Capped(weight: nat, cap: nat): (r: nat)
    ensures r <= weight && r <= cap && (r == weight || r == cap)
  {
    if weight < cap then weight else cap
  }
}
