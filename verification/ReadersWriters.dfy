/** The abstract readers-writers lock that the concrete protocols implement: any number of readers, or one writer. */
module ReadersWriters {

  datatype Users = Users(readers: set<nat>, writers: set<nat>)

  /** One step of the abstract lock, or none. */
  ghost predicate Next(l: Users, l': Users) {
    || l' == l
    || (exists i :: ReaderEnters(l, i, l') || ReaderLeaves(l, i, l') || WriterEnters(l, i, l') || WriterLeaves(l, i, l'))
  }

  predicate ReaderEnters(l: Users, i: nat, l': Users) {
    l.writers == {} && i !in l.readers && l' == l.(readers := l.readers + {i})
  }

  predicate ReaderLeaves(l: Users, i: nat, l': Users) {
    i in l.readers && l' == l.(readers := l.readers - {i})
  }

  predicate WriterEnters(l: Users, i: nat, l': Users) {
    l.writers == {} && l.readers == {} && l' == l.(writers := {i})
  }

  predicate WriterLeaves(l: Users, i: nat, l': Users) {
    l.writers == {i} && l' == l.(writers := {})
  }

  const EMPTY := Users({}, {})

  /** Readers and a writer never meet, and writers never meet. */
  predicate Safe(l: Users) {
    (l.writers != {} ==> l.readers == {}) && |l.writers| <= 1
  }

  lemma NextSafe(l: Users, l': Users)
    requires Safe(l) && Next(l, l')
    ensures Safe(l')
  {
    if l' != l {
      var i :| ReaderEnters(l, i, l') || ReaderLeaves(l, i, l') || WriterEnters(l, i, l') || WriterLeaves(l, i, l');
    }
  }

  /** The threads whose phase satisfies f. */
  function Those<T>(s: seq<T>, f: T -> bool): set<nat> {
    set i: nat | i < |s| && f(s[i])
  }

  lemma ThoseUpdate<T>(s: seq<T>, i: nat, v: T, f: T -> bool)
    requires i < |s|
    ensures Those(s[i := v], f) == if f(v) then Those(s, f) + {i} else Those(s, f) - {i}
  {
  }

  lemma ThoseSame<T>(s: seq<T>, s': seq<T>, f: T -> bool)
    requires |s| == |s'| && forall i :: 0 <= i < |s| ==> f(s[i]) == f(s'[i])
    ensures Those(s, f) == Those(s', f)
  {
  }

  lemma ThoseEmpty<T>(s: seq<T>, f: T -> bool)
    requires forall i :: 0 <= i < |s| ==> !f(s[i])
    ensures Those(s, f) == {}
  {
  }
}
