/** What the other modules share and no file of the program owns: an option type, the permutation step of the
    insertion sorts that stand in for the library's, and the steps of a count over a list and of a loop over a set. */
module Wrappers {

  datatype Option<+T> = None | Some(value: T)

  lemma InsertKeeps<T>(s: seq<T>, k: nat, x: T)
    requires k <= |s|
    ensures multiset(s[..k] + [x] + s[k..]) == multiset(s) + multiset{x}
  {
    assert s == s[..k] + s[k..];
  }

  lemma SnocCount<T>(s: seq<T>, last: T, x: T)
    ensures multiset(s + [last])[x] == multiset(s)[x] + if last == x then 1 else 0
  {
  }

  /** One step of a loop that takes the elements of a set in an unknown order. */
  lemma MoveOne<K>(rest: set<K>, done: set<K>, k: K)
    requires k in rest && rest !! done
    ensures (rest - {k}) + (done + {k}) == rest + done && (rest - {k}) !! (done + {k})
  {
  }
}
