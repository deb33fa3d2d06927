/**
 Attributes that keep track of their own changes.  Every class of a hierarchy
 declares read-only and writable attributes and has a list of the writable ones
 that were changed since the last flush; an assignment is handled by the first
 class, from the most derived one on, that declares the attribute.
 */
module MarkUpdate {

  datatype ClassDef<A> = ClassDef(readAttrs: seq<A>, writeAttrs: seq<A>, dontClear: seq<A>)

  /** The first class from the i-th on that declares the attribute. */
  function Owner<A(==)>(classes: seq<ClassDef<A>>, a: A, i: nat): (o: nat)
    requires i <= |classes|
    ensures i <= o <= |classes|
    decreases |classes| - i
  {
    if i == |classes| || a in classes[i].readAttrs || a in classes[i].writeAttrs then i
    else Owner(classes, a, i + 1)
  }

  class Tracked<A(==,!new), V(==)> {
    /** The most derived class first. */
    const classes: seq<ClassDef<A>>
    var attrs: map<A, V>
    /** For each class, the `__updated` list. */
    var updated: seq<seq<A>>
    /** For each class, the attributes as they were when its list was last emptied. */
    ghost var flushed: seq<map<A, V>>

    /** The attribute has a value now that it did not have at the last flush of the class. */
    ghost predicate Changed(i: nat, a: A)
      requires i < |flushed|
      reads this
    {
      a in attrs && !(a in flushed[i] && flushed[i][a] == attrs[a])
    }

    /** No change is lost: every changed writable attribute is in its own class's list. */
    ghost predicate Valid()
      reads this
    {
      && |updated| == |flushed| == |classes|
      && forall i, a :: 0 <= i < |classes| && a in classes[i].writeAttrs && Owner(classes, a, 0) == i && Changed(i, a)
           ==> a in updated[i]
    }

    constructor (classes: seq<ClassDef<A>>)
      ensures Valid() && this.classes == classes && attrs == map[]
      ensures forall i :: 0 <= i < |classes| ==> updated[i] == []
    {
      this.classes, attrs := classes, map[];
      updated, flushed := seq(|classes|, i => []), seq(|classes|, i => map[]);
    }

    /** The lists after a successful assignment that the class `o` handles. */
    ghost function Noted(o: nat, a: A, v: V): seq<seq<A>>
      requires o <= |classes| == |updated|
      reads this
    {
      if && o < |classes| && a in classes[o].writeAttrs
         && !(a !in classes[o].readAttrs && a in attrs && attrs[a] == v)
      then updated[o := updated[o] + [a]]
      else updated
    }

    /** `__setattr__` of the i-th class; false for "attribute is read-only". */
    method SetAttrFrom(i: nat, a: A, v: V) returns (ok: bool)
      requires i <= |classes| == |updated|
      modifies this`attrs, this`updated
      ensures var o := Owner(classes, a, i);
              && ok == !(o < |classes| && a in classes[o].readAttrs && a in old(attrs))
              && (!ok ==> attrs == old(attrs) && updated == old(updated))
              && (ok ==> attrs == old(attrs)[a := v] && updated == old(Noted(o, a, v)))
      decreases |classes| - i
    {
      if i == |classes| {
        attrs := attrs[a := v];
        return true;
      }
      if a in classes[i].readAttrs {
        if a in attrs {
          return false;
        }
      } else if a in classes[i].writeAttrs {
        if a in attrs && v == attrs[a] {
          assert attrs[a := v] == attrs;
          return true;
        }
      } else {
        ok := SetAttrFrom(i + 1, a, v);
        return;
      }
      attrs := attrs[a := v];
      if a in classes[i].writeAttrs {
        updated := updated[i := updated[i] + [a]];
      }
      return true;
    }

    /** `obj.a = v`. */
    method SetAttr(a: A, v: V) returns (ok: bool)
      requires Valid()
      modifies this`attrs, this`updated
      ensures Valid()
      ensures var o := Owner(classes, a, 0);
              && ok == !(o < |classes| && a in classes[o].readAttrs && a in old(attrs))
              && (!ok ==> attrs == old(attrs) && updated == old(updated))
              && (ok ==> attrs == old(attrs)[a := v] && updated == old(Noted(o, a, v)))
    {
      ok := SetAttrFrom(0, a, v);
    }

    /** `del obj.a`. */
    method DelAttr(a: A)
      requires Valid()
      modifies this`attrs
      ensures Valid() && attrs == old(attrs) - {a}
    {
      attrs := attrs - {a};
    }

    /** The i-th class's list is emptied, once its attributes are saved. */
    method Flush(i: nat)
      requires Valid() && i < |classes|
      modifies this`updated, this`flushed
      ensures Valid() && updated == old(updated)[i := []] && flushed == old(flushed)[i := attrs]
    {
      updated := updated[i := []];
      flushed := flushed[i := attrs];
    }

    /** The class clears the attribute. */
    ghost predicate Clears(i: nat, a: A)
      requires i < |classes|
    {
      a !in classes[i].dontClear && (a in classes[i].readAttrs || a in classes[i].writeAttrs)
    }

    /** A writable attribute that no class makes read-only before it can be set. */
    ghost predicate Settable(a: A) {
      var o := Owner(classes, a, 0);
      o < |classes| ==> a !in classes[o].readAttrs
    }

    /** No other class handles the assignment of the class's writable attributes. */
    ghost predicate OwnsWritable(i: nat)
      requires i < |classes|
    {
      forall a :: a in classes[i].writeAttrs ==> Owner(classes, a, 0) == i
    }

    /** `clear` of the i-th class, without those of its base classes. */
    method ClearClass(i: nat, none: V)
      requires Valid() && i < |classes|
      modifies this`attrs, this`updated
      ensures Valid()
      ensures OwnsWritable(i) ==> forall k :: 0 <= k < |classes| && k != i ==> updated[k] == old(updated)[k]
      ensures forall a :: !Clears(i, a) ==>
                (a in attrs <==> a in old(attrs)) && (a in attrs ==> attrs[a] == old(attrs)[a])
      ensures forall a :: Clears(i, a) && a !in classes[i].writeAttrs ==> a !in attrs
      ensures forall a :: Clears(i, a) && a in classes[i].writeAttrs && Settable(a) ==> a in attrs && attrs[a] == none
    {
      var readOnly := classes[i].readAttrs;
      for j := 0 to |readOnly|
        invariant Valid()
        invariant updated == old(updated)
        invariant forall a :: a in attrs ==> a in old(attrs) && attrs[a] == old(attrs)[a]
        invariant forall a :: a in old(attrs) && !Clears(i, a) ==> a in attrs
        invariant forall a :: Clears(i, a) && a in readOnly[..j] ==> a !in attrs
      {
        if readOnly[j] !in classes[i].dontClear {
          DelAttr(readOnly[j]);
        }
      }
      assert readOnly[..|readOnly|] == readOnly;
      var writable := classes[i].writeAttrs;
      for j := 0 to |writable|
        invariant Valid()
        invariant OwnsWritable(i) ==> forall k :: 0 <= k < |classes| && k != i ==> updated[k] == old(updated)[k]
        invariant forall a :: !Clears(i, a) ==>
                    (a in attrs <==> a in old(attrs)) && (a in attrs ==> attrs[a] == old(attrs)[a])
        invariant forall a :: Clears(i, a) && a !in writable ==> a !in attrs
        invariant forall a :: Clears(i, a) && a in writable[..j] && Settable(a) ==> a in attrs && attrs[a] == none
      {
        if writable[j] !in classes[i].dontClear {
          var ok := SetAttr(writable[j], none);
        }
      }
      assert writable[..|writable|] == writable;
    }
  }
}
