/**
  Reference-counted attachments and the values that hold them (icalattach.c and the attach
  setters of icalderivedvalue.c).

  Ledger is a bookkeeper for proofs: it knows every attachment, the references the program
  owns itself and the values it has created.  Its methods are the library calls.
 */
module Attach {

  /** icalattach.  released stands for the memory having been freed. */
  class Attachment {
    const isUrl: bool
    const content: string
    var refcount: int
    ghost var released: bool

    /** icalattach_new_from_url and icalattach_new_from_data. */
    constructor (isUrl: bool, content: string)
      ensures this.isUrl == isUrl && this.content == content
      ensures refcount == 1 && !released
    {
      this.isUrl, this.content := isUrl, content;
      refcount := 1;
      released := false;
    }

    method Ref()
      requires !released
      modifies this
      ensures refcount == if old(refcount) > 0 then old(refcount) + 1 else old(refcount)
      ensures !released
    {
      if refcount <= 0 {
        return;
      }
      refcount := refcount + 1;
    }

    method Unref()
      requires !released
      modifies this
      ensures refcount == if old(refcount) > 0 then old(refcount) - 1 else old(refcount)
      ensures released <==> old(refcount) == 1
    {
      if refcount <= 0 {
        return;
      }
      refcount := refcount - 1;
      if refcount != 0 {
        return;
      }
      released := true;
    }
  }

  /** An icalvalue of the attach kind. */
  class AttachValue {
    var attach: Attachment?

    constructor ()
      ensures attach == null
    {
      attach := null;
    }
  }

  /** The values that hold a. */
  ghost function HoldersAmong(values: set<AttachValue>, a: Attachment): set<AttachValue>
    reads values
  {
    set v | v in values && v.attach == a
  }

  class Ledger {
    ghost var pool: set<Attachment>
    ghost var values: set<AttachValue>
    ghost var owned: multiset<Attachment>

    /** How many references to a are outstanding. */
    ghost function Holders(a: Attachment): nat
      reads this, values
    {
      owned[a] + |HoldersAmong(values, a)|
    }

    /** The invariant of every run: counts are right, and freed means held by nobody. */
    ghost predicate Valid()
      reads this, pool, values
    {
      && (forall a <- pool :: a.refcount == Holders(a) && (a.released <==> a.refcount == 0))
      && (forall a <- owned :: a in pool)
      && (forall v <- values :: v.attach != null ==> v.attach in pool)
    }

    constructor ()
      ensures Valid() && pool == {} && values == {} && owned == multiset{}
    {
      pool, values, owned := {}, {}, multiset{};
    }

    /** What is held is never a freed attachment. */
    lemma HeldIsAlive(a: Attachment)
      requires Valid() && a in pool && Holders(a) > 0
      ensures !a.released && a.refcount > 0
    {
    }

    lemma ValueHolds(v: AttachValue)
      requires Valid() && v in values && v.attach != null
      ensures !v.attach.released && v.attach.refcount > 0
    {
      assert v in HoldersAmong(values, v.attach);
    }

    method NewAttachment(isUrl: bool, content: string) returns (a: Attachment)
      requires Valid()
      modifies this
      ensures Valid() && fresh(a) && a.refcount == 1
      ensures pool == old(pool) + {a} && owned == old(owned) + multiset{a} && values == old(values)
    {
      a := new Attachment(isUrl, content);
      assert HoldersAmong(values, a) == {};
      pool := pool + {a};
      owned := owned + multiset{a};
    }

    /** The program takes another reference. */
    method Ref(a: Attachment)
      requires Valid() && a in pool && Holders(a) > 0
      modifies this`owned, a
      ensures Valid() && owned == old(owned) + multiset{a}
    {
      HeldIsAlive(a);
      a.Ref();
      owned := owned + multiset{a};
    }

    /** The program gives one of its references back. */
    method Unref(a: Attachment)
      requires Valid() && a in owned
      modifies this`owned, a
      ensures Valid() && owned == old(owned) - multiset{a}
      ensures a.released <==> old(Holders(a)) == 1
    {
      HeldIsAlive(a);
      a.Unref();
      owned := owned - multiset{a};
    }

    /** One value stops holding old and starts holding next: the change of every count. */
    twostate lemma Moved(v: AttachValue)
      requires v in values && values == old(values) && owned == old(owned)
      requires forall w <- values :: w != v ==> w.attach == old(w.attach)
      ensures forall a <- old(pool) ::
                Holders(a) + (if old(v.attach) == a then 1 else 0) == old(Holders(a)) + (if v.attach == a then 1 else 0)
    {
      forall a | a in old(pool)
        ensures Holders(a) + (if old(v.attach) == a then 1 else 0) == old(Holders(a)) + (if v.attach == a then 1 else 0)
      {
        var before, after := old(HoldersAmong(values, a)), HoldersAmong(values, a);
        assert before - {v} == after - {v};
        assert (v in before <==> old(v.attach) == a) && (v in after <==> v.attach == a);
        assert |before| == |before - {v}| + (if v in before then 1 else 0);
        assert |after| == |after - {v}| + (if v in after then 1 else 0);
      }
    }

    /**
      icalvalue_set_attach.  The new attachment is referenced before the old one is given up,
      so it survives even when the two are the same.
     */
    method SetAttach(v: AttachValue, a: Attachment)
      requires Valid() && v in values && a in pool && Holders(a) > 0
      modifies v, pool
      ensures Valid() && v.attach == a && !a.released
      ensures forall b <- pool :: b.released <==>
                old(b.released) || (b == old(v.attach) && b != a && old(Holders(b)) == 1)
    {
      HeldIsAlive(a);
      a.Ref();
      if v.attach != null {
        assert v in HoldersAmong(values, v.attach);
        v.attach.Unref();
      }
      v.attach := a;
      Moved(v);
    }

    /** A value that holds nothing does not count. */
    lemma Joined(a: Attachment, v: AttachValue, with: set<AttachValue>)
      requires v.attach == null
      ensures HoldersAmong(with, a) == HoldersAmong(with - {v}, a)
    {
    }

    /** icalvalue_new_attach, and icalvalue_new_clone of a value that holds a. */
    method NewAttachValue(a: Attachment) returns (v: AttachValue)
      requires Valid() && a in pool && Holders(a) > 0
      modifies this`values, pool
      ensures Valid() && fresh(v) && v.attach == a && values == old(values) + {v}
      ensures forall b <- pool :: b.released == old(b.released)
    {
      v := new AttachValue();
      values := values + {v};
      assert values - {v} == old(values);
      forall b | b in pool ensures b.refcount == Holders(b) {
        Joined(b, v, values);
      }
      SetAttach(v, a);
    }

    /** The part of icalvalue_free that gives up the attachment. */
    method DropAttach(v: AttachValue)
      requires Valid() && v in values
      modifies v, pool
      ensures Valid() && v.attach == null
      ensures forall b <- pool :: b.released <==>
                old(b.released) || (b == old(v.attach) && old(Holders(b)) == 1)
    {
      if v.attach != null {
        assert v in HoldersAmong(values, v.attach);
        v.attach.Unref();
        v.attach := null;
      }
      Moved(v);
    }

    /** icalvalue_free: the value gives up its attachment and goes. */
    method FreeValue(v: AttachValue)
      requires Valid() && v in values
      modifies this`values, v, pool
      ensures Valid() && values == old(values) - {v}
      ensures forall b <- pool :: b.released <==>
                old(b.released) || (b == old(v.attach) && old(Holders(b)) == 1)
    {
      DropAttach(v);
      forall b | b in pool ensures HoldersAmong(values, b) == HoldersAmong(values - {v}, b) {
        Joined(b, v, values);
      }
      values := values - {v};
    }
  }
}
