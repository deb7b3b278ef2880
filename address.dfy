/** Address literals handed to gdb's breakpoint constructor. */
module Address {
  import opened Wrappers

  /** gdb wants address literals to start with '*'; every breakpoint class prepends one
      when it is missing. Reading `addr[0]` of an empty address raises, modelled as None. */
  function Normalize(addr: string): (r: Option<string>)
    ensures r.None? <==> addr == []
    ensures r.Some? ==> |r.value| > 0 && r.value[0] == '*'
    ensures r.Some? && addr[0] == '*' ==> r.value == addr
    ensures r.Some? && addr[0] != '*' ==> r.value[1..] == addr
  {
    if addr == [] then None
    else if addr[0] != '*' then Some("*" + addr)
    else Some(addr)
  }

  /** Normalising an already normalised address changes nothing. */
  lemma NormalizeIdempotent(addr: string)
    requires addr != []
    ensures Normalize(Normalize(addr).value) == Normalize(addr)
  {
  }
}
