/** Remembering undecorated symbols, where there is memory to remember them. */
module SymbolCache {
  import opened HashTrie

  class CallCache {
    const seen: Trie<string>
    const raw: string -> string
    var hits: nat
    var misses: nat

    // Every output remembered is what the uncached call gives.
    ghost predicate Valid()
      reads this, seen, seen.nodes.Values
    {
      seen.Valid() && forall sym :: Remembers(sym) ==> seen.Contents()[sym].value == raw(sym)
    }

    ghost predicate Remembers(sym: string)
      reads this, seen, seen.nodes.Values
    {
      seen.Valid() && sym in seen.Contents() && seen.Contents()[sym].Some?
    }

    constructor (hash: string -> bv64, raw: string -> string)
      ensures Valid() && fresh(seen) && this.raw == raw && hits == 0 && misses == 0
      ensures forall sym :: !Remembers(sym)
    {
      hide Trie.Valid, Trie.Contents;
      seen := new Trie(hash);
      this.raw := raw;
      hits, misses := 0, 0;
    }

    /** Whatever allocations fail, the result is that of the uncached call. A call is a hit exactly if
        the symbol was remembered; it is remembered afterwards if all allocations succeed, and nothing
        remembered is ever forgotten. */
    method Undecorate(sym: string, memoryForNode: bool, memoryForOutput: bool) returns (r: string)
      requires Valid()
      modifies this`hits, this`misses, seen, seen.nodes.Values
      ensures Valid() && fresh(seen.nodes.Values - old(seen.nodes.Values))
      ensures r == raw(sym)
      ensures if old(Remembers(sym)) then hits == old(hits) + 1 && misses == old(misses)
              else hits == old(hits) && misses == old(misses) + 1
      ensures memoryForNode && memoryForOutput ==> Remembers(sym)
      ensures forall s :: old(Remembers(s)) ==> Remembers(s)
    {
      hide Trie.Valid, Trie.Contents;
      var m := seen.Upsert(sym, memoryForNode);
      if m != null && m.value.Some? {
        hits := hits + 1;
        return m.value.value;
      }
      misses := misses + 1;
      r := raw(sym);
      if m != null && memoryForOutput {
        seen.SetValue(m, r);
      }
    }
  }
}
