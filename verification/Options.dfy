module Options {
  datatype Option<+T> = None | Some(value: T)

  function Lookup<T>(m: map<string, T>, c: string): Option<T> {
    if c in m then Some(m[c]) else None
  }
}

module Sequences {
  predicate Distinct<T(==)>(s: seq<T>) {
    forall i, j :: 0 <= i < j < |s| ==> s[i] != s[j]
  }

  function Elems(s: seq<string>): set<string> {
    set x | x in s
  }
}

/** An element of a set that is not empty. */
module Choice {
  method Pick<T>(s: set<T>) returns (x: T)
    requires s != {}
    ensures x in s
  {
    x :| x in s;
  }

  lemma OneMoved<T>(done: set<T>, todo: set<T>, x: T)
    requires done !! todo && x in todo
    ensures x !in done && (done + {x}) !! (todo - {x}) && done + {x} + (todo - {x}) == done + todo
  {
  }

  lemma KeyOf<K, V>(m: map<K, V>, v: V) returns (k: K)
    requires v in m.Values
    ensures k in m && m[k] == v
  {
    k :| k in m && m[k] == v;
  }

  lemma AnyKey<K, V>(m: map<K, V>) returns (k: K)
    requires m != map[]
    ensures k in m
  {
    k :| k in m;
  }
}
