/** The shrink policy applied to the two dictionaries of a database (src/cache.c:432-444). */
module DictCron {
  import opened DictState
  import opened DictHeap
  import DictRuns
  import DictShrink

  /** `htNeedsResize`. */
  method HtNeedsResize(dict: Dict) returns (b: bool)
    requires dict.Valid()
    ensures b == DictShrink.NeedsResize(dict.s)
  {
    hide DictState.Valid, DictShrink.TooEmpty, Mirrors, ChainOk;
    b := DictShrink.TooEmpty(dict.table0.Length + dict.table1.Length, dict.used0 + dict.used1);
  }

  /** What the policy does to one dictionary. */
  function Tried(s: State, canResize: bool): State {
    if DictShrink.NeedsResize(s) then DictOps.Resize(s, canResize).0 else s
  }

  /** The policy never loses an entry, and while a rehash runs it does nothing. */
  lemma TriedOk(s: State, canResize: bool, hash: HashFn)
    requires Valid(s, hash)
    ensures var r := Tried(s, canResize);
            && Valid(r, hash) && Entries(r) == Entries(s)
            && (IsRehashing(s) || !canResize ==> r == s)
            && (canResize && !IsRehashing(s) ==> (IsRehashing(r) <==> DictShrink.NeedsResize(s)))
  {
    hide Valid, Entries, DictShrink.NeedsResize, DictOps.Expand;
    DictRuns.ResizeOk(s, canResize, hash);
    if DictShrink.NeedsResize(s) && !IsRehashing(s) { DictShrink.ShrinkStarts(s, hash); }
  }

  /** `tryResizeHashTables`. */
  method TryResizeHashTables(dict: Dict, expires: Dict, canResize: bool)
    requires dict != expires && dict.Valid() && expires.Valid()
    modifies dict, expires
    ensures dict.Valid() && dict.s == Tried(old(dict.s), canResize)
    ensures expires.Valid() && expires.s == Tried(old(expires.s), canResize)
  {
    hide DictState.Valid, DictShrink.NeedsResize, DictOps.Resize, ChainOk, Contents;
    var b := HtNeedsResize(dict);
    if b {
      var _ := dict.Resize(canResize);
    }
    b := HtNeedsResize(expires);
    if b {
      var _ := expires.Resize(canResize);
    }
  }
}
