/**
 * JavaScript walks string keys such as "a12" (`Object.keys`, `for ... in`) in
 * insertion order, and deleting and re-adding a key moves it to the end. The
 * model does not track insertion order: functions that walk a record take the
 * walk as a parameter, constrained to be an enumeration of the record's keys,
 * and operations that leave the order open are proved equal to such a walk for
 * every enumeration.
 */
module KeyOrder {

  /** `o` lists every key of `ks` exactly once and nothing else. */
  ghost predicate IsEnumeration<K(!new)>(o: seq<K>, ks: set<K>) {
    && (forall i, j :: 0 <= i < j < |o| ==> o[i] != o[j])
    && (forall k :: k in o <==> k in ks)
  }
}
