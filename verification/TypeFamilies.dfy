/** A type and the types derived from it, which are told apart by keys: ids or names. */
module TypeFamilies {
  import opened Wrappers

  /** The description of a type: the type itself, the key that stands for it, and what is serialized of it. */
  datatype Described<K, B> = Described(index: nat, key: K, body: B)

  /** A type and the types derived from it, in the order in which the map of derived types lists them. */
  datatype Family<K, B> = Family(base: Described<K, B>, derived: seq<Described<K, B>>) {
    /** The derived types are other types than the base type, and have keys of their own. The base type may share its
        key with one of them. */
    ghost predicate TellsDerivedApart() {
      && (forall i | 0 <= i < |derived| :: derived[i].index != base.index)
      && (forall i, j | 0 <= i < j < |derived| :: derived[i].index != derived[j].index && derived[i].key != derived[j].key)
    }
  }

  /** An object, and its dynamic type. */
  datatype Instance<F> = Instance(index: nat, fields: seq<F>)

  function WithIndex<K, B>(descriptors: seq<Described<K, B>>, index: nat): Option<Described<K, B>> {
    if |descriptors| == 0 then None
    else if descriptors[0].index == index then Some(descriptors[0])
    else WithIndex(descriptors[1..], index)
  }

  function WithKey<K(==), B>(descriptors: seq<Described<K, B>>, key: K): Option<Described<K, B>> {
    if |descriptors| == 0 then None
    else if descriptors[0].key == key then Some(descriptors[0])
    else WithKey(descriptors[1..], key)
  }

  /** The description by which an object is written; none if its type is not registered. */
  function Writer<K, B>(family: Family<K, B>, index: nat): Option<Described<K, B>> {
    if family.base.index == index then Some(family.base) else WithIndex(family.derived, index)
  }

  /** The description that a key stands for; the base type is looked at first. */
  function Reader<K(==), B>(family: Family<K, B>, key: K): Option<Described<K, B>> {
    if key == family.base.key then Some(family.base) else WithKey(family.derived, key)
  }

  lemma {:induction false} WithIndexIs<K, B>(descriptors: seq<Described<K, B>>, index: nat)
    ensures match WithIndex(descriptors, index)
      case Some(d) => d.index == index && exists i | 0 <= i < |descriptors| :: descriptors[i] == d
      case None => forall i | 0 <= i < |descriptors| :: descriptors[i].index != index
  {
    if |descriptors| > 0 && descriptors[0].index != index {
      WithIndexIs(descriptors[1..], index);
      assert forall i | 0 < i < |descriptors| :: descriptors[i] == descriptors[1..][i - 1];
      if d :| WithIndex(descriptors[1..], index) == Some(d) {
        var k :| 0 <= k < |descriptors[1..]| && descriptors[1..][k] == d;
        assert descriptors[k + 1] == d;
      }
    }
  }

  lemma {:induction false} WithKeyIs<K, B>(descriptors: seq<Described<K, B>>, k: nat)
    requires k < |descriptors|
    requires forall i, j | 0 <= i < j < |descriptors| :: descriptors[i].key != descriptors[j].key
    ensures WithKey(descriptors, descriptors[k].key) == Some(descriptors[k])
  {
    if k > 0 {
      WithKeyIs(descriptors[1..], k - 1);
      assert descriptors[0].key != descriptors[k].key;
    }
  }

  lemma {:induction false} WithKeyIsMember<K, B>(descriptors: seq<Described<K, B>>, key: K)
    ensures match WithKey(descriptors, key)
      case Some(d) => d.key == key && exists i | 0 <= i < |descriptors| :: descriptors[i] == d
      case None => forall i | 0 <= i < |descriptors| :: descriptors[i].key != key
  {
    if |descriptors| > 0 && descriptors[0].key != key {
      WithKeyIsMember(descriptors[1..], key);
      assert forall i | 0 < i < |descriptors| :: descriptors[i] == descriptors[1..][i - 1];
      if d :| WithKey(descriptors[1..], key) == Some(d) {
        var k :| 0 <= k < |descriptors[1..]| && descriptors[1..][k] == d;
        assert descriptors[k + 1] == d;
      }
    }
  }

  /** The description by which an object is written is one of the family, that of its type. */
  lemma WriterIsMember<K, B>(family: Family<K, B>, index: nat)
    requires Writer(family, index).Some?
    ensures var d := Writer(family, index).value;
      && d.index == index
      && (d == family.base || exists i | 0 <= i < |family.derived| :: family.derived[i] == d)
  {
    if index != family.base.index {
      WithIndexIs(family.derived, index);
    }
  }

  /** A key stands for the base type if it is its key, or else for the first derived type with it; no other key
      stands for a type. */
  lemma ReaderIs<K, B>(family: Family<K, B>, key: K)
    ensures match Reader(family, key)
      case Some(d) =>
        d.key == key && if key == family.base.key then d == family.base else exists i | 0 <= i < |family.derived| :: family.derived[i] == d
      case None => key != family.base.key && forall i | 0 <= i < |family.derived| :: family.derived[i].key != key
  {
    WithKeyIsMember(family.derived, key);
  }

  /** The key of a type leads back to the type, and not to another one, exactly when it is not the key of the base
      type, or the type is the base type. */
  lemma ReaderOfWriter<K, B>(family: Family<K, B>, index: nat)
    requires family.TellsDerivedApart() && Writer(family, index).Some?
    ensures var d := Writer(family, index).value; var read := Reader(family, d.key);
      && d.index == index && read.Some?
      && (read == Some(d) <==> index == family.base.index || d.key != family.base.key)
      && (read == Some(d) <==> read.value.index == index)
  {
    if index != family.base.index {
      WithIndexIs(family.derived, index);
      var d := Writer(family, index).value;
      var k :| 0 <= k < |family.derived| && family.derived[k] == d;
      WithKeyIs(family.derived, k);
    }
  }
}
