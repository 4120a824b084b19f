/**
 * String interning as used for the api tag of a metadata descriptor:
 * `g_quark_from_string` hands out one small integer per distinct string,
 * returning the existing one when the string has been seen before and the
 * next unused one otherwise. Quark 0 stands for NULL and is never issued.
 */
module Quarks {

  type Quark = nat

  /** The process-wide intern table: string to quark, and the next quark to hand out. */
  datatype QuarkTable = QuarkTable(ids: map<string, Quark>, next: Quark)

  /** Issued quarks are non-zero, below `next`, and distinct for distinct strings. */
  predicate Valid(t: QuarkTable)
  {
    && t.next >= 1
    && (forall s :: s in t.ids ==> 1 <= t.ids[s] < t.next)
    && (forall s, s' :: s in t.ids && s' in t.ids && s != s' ==> t.ids[s] != t.ids[s'])
  }

  /** `u` keeps every string `t` has interned, with the same quark. */
  predicate Extends(t: QuarkTable, u: QuarkTable)
  {
    forall s :: s in t.ids ==> s in u.ids && u.ids[s] == t.ids[s]
  }

  datatype Interned = Interned(table: QuarkTable, quark: Quark)

  /** Intern `s`: the quark it already has, or a fresh one recorded for it. */
  function FromString(t: QuarkTable, s: string): (r: Interned)
    ensures s in r.table.ids && r.table.ids[s] == r.quark
    ensures Extends(t, r.table)
    ensures r.table.ids.Keys == t.ids.Keys + {s}
    ensures s in t.ids ==> r.table == t
    ensures Valid(t) ==> Valid(r.table) && r.quark != 0
    ensures Valid(t) && s !in t.ids ==> forall s' :: s' in t.ids ==> t.ids[s'] != r.quark
  {
    if s in t.ids then
      Interned(t, t.ids[s])
    else
      Interned(QuarkTable(t.ids[s := t.next], t.next + 1), t.next)
  }

  lemma ExtendsTransitive(t: QuarkTable, u: QuarkTable, v: QuarkTable)
    requires Extends(t, u) && Extends(u, v)
    ensures Extends(t, v)
  {
  }

  /**
   * Interning is a function of the string: two strings get the same quark
   * from a valid table exactly when they are equal, however many other
   * strings were interned in between.
   */
  lemma QuarkIdentity(t: QuarkTable, s: string, u: QuarkTable, s': string)
    requires Valid(t) && Valid(u) && Extends(FromString(t, s).table, u)
    ensures FromString(t, s).quark == FromString(u, s').quark <==> s == s'
  {
  }
}
