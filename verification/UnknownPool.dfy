/** The pool of unknowns shared by everything that generates an expression. */
module UnknownPool {
  import opened SchemaTypes
  import opened Numerals
  import opened Values

  datatype Unknown = Unknown(ty: Type, value: Value)

  class UnknownPool {
    var unknowns: map<string, Unknown>

    ghost predicate Valid()
      reads this
    {
      unknowns.Keys == Numbered("", |unknowns|)
    }

    constructor ()
      ensures Valid() && unknowns == map[]
    {
      unknowns := map[];
      assert Numbered("", 0) == {};
    }

    /** Makes a new unknown, named by how many there are; no entry is overwritten. */
    method Alloc(ty: Type, value: Value) returns (name: string)
      requires Valid()
      modifies this
      ensures Valid()
      ensures name == Print10(|old(unknowns)|) && name !in old(unknowns)
      ensures unknowns == old(unknowns)[name := Unknown(ty, value)]
    {
      name := Print10(|unknowns|);
      NumberedIsNew("", |unknowns|);
      assert "" + name == name;
      assert |unknowns[name := Unknown(ty, value)]| == |unknowns| + 1 by {
        assert unknowns[name := Unknown(ty, value)].Keys == unknowns.Keys + {name};
      }
      unknowns := unknowns[name := Unknown(ty, value)];
    }
  }
}
