/** The remembered set (src/gc_remset.c): a growing array of slot addresses without duplicates. */
module RememberedSets {

  ghost predicate NoDuplicates(s: seq<int>) {
    forall i, j :: 0 <= i < j < |s| ==> s[i] != s[j]
  }

  class RememberedSet {
    var roots: array<int>
    var nroots: nat
    var size: nat

    ghost predicate Valid()
      reads this, roots
    {
      && nroots <= size == roots.Length
      && NoDuplicates(roots[..nroots])
      && 0 !in roots[..nroots]
    }

    ghost function Slots(): set<int>
      requires nroots <= roots.Length
      reads this, roots
    {
      set a | a in roots[..nroots]
    }

    /** GC_remembered_set_init */
    constructor ()
      ensures Valid() && fresh(roots) && Slots() == {}
    {
      roots := new int[1024];
      size := 1024;
      nroots := 0;
    }

    /** GC_remembered_set_add */
    method Add(address: int)
      requires Valid() && address != 0
      modifies this, roots
      ensures Valid() && Slots() == old(Slots()) + {address}
      ensures roots[..nroots] ==
              old(roots[..nroots]) + if address in old(roots[..nroots]) then [] else [address]
      ensures size == if address in old(roots[..nroots]) || old(nroots) < old(size) then old(size)
                      else if old(size) != 0 then 2 * old(size) else 1
      ensures roots == old(roots) || fresh(roots)
    {
      var i := 0;
      while i < nroots
        invariant i <= nroots
        invariant address !in roots[..i]
      {
        assert roots[i] in roots[..nroots];
        if roots[i] == address {
          return;
        } else if roots[i] == 0 {
          // An emptied entry would be reused here, but no entry is ever emptied.
          assert false;
        }
        i := i + 1;
      }
      if nroots + 1 > size {
        var newSize := if size != 0 then 2 * size else 1;
        var tmp := new int[newSize];
        forall j | 0 <= j < size {
          tmp[j] := roots[j];
        }
        assert tmp[..nroots] == roots[..nroots];
        roots := tmp;
        size := newSize;
      }
      ghost var before := roots[..nroots];
      nroots := nroots + 1;
      roots[nroots - 1] := address;
      assert roots[..nroots] == before + [address];
      assert before == old(roots[..nroots]);
      forall a ensures a in Slots() <==> a in old(Slots()) || a == address {
        assert a in roots[..nroots] <==> a in before || a == address;
      }
    }

    /** GC_remembered_set_clr */
    method Clear()
      requires Valid()
      modifies this`nroots
      ensures Valid() && Slots() == {}
    {
      nroots := 0;
    }
  }
}
