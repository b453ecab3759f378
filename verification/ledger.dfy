/** The resource history of one enumerator: every handle the OS opened for
    it, every `CloseHandle` call in order, and every `FreeHGlobal` of its
    buffer. Handles are abstract ids the OS never hands out twice. */
module HandleLedger {
  import opened Win32

  datatype Ledger = Ledger(next: Handle, issued: set<Handle>, closes: seq<Handle>, frees: nat)

  /** Nothing opened, nothing closed, nothing freed. */
  const Empty: Ledger := Ledger(1, {}, [], 0)

  /** The handles listed in `hs`. */
  function Elements(hs: seq<Handle>): set<Handle>
  {
    set i | 0 <= i < |hs| :: hs[i]
  }

  /** The handles `CloseHandle` has been called on. */
  function Closed(l: Ledger): set<Handle>
  {
    Elements(l.closes)
  }

  /** The handles that are open right now. */
  function Live(l: Ledger): set<Handle>
  {
    l.issued - Closed(l)
  }

  predicate NoDuplicates(hs: seq<Handle>)
  {
    forall i, j :: 0 <= i < j < |hs| ==> hs[i] != hs[j]
  }

  /** No handle closed twice, only opened handles closed, ids positive and
      below the allocation mark, the buffer freed at most once. */
  predicate Sound(l: Ledger)
  {
    && NoDuplicates(l.closes)
    && Closed(l) <= l.issued
    && 0 < l.next
    && (forall h :: h in l.issued ==> 0 < h < l.next)
    && l.frees <= 1
  }

  /** `l'` continues the history `l`: nothing is un-opened or un-closed. */
  predicate Extends(l: Ledger, l': Ledger)
  {
    && l.next <= l'.next
    && l.issued <= l'.issued
    && l.closes <= l'.closes
    && l.frees <= l'.frees
  }

  lemma ExtendsIsTransitive(l1: Ledger, l2: Ledger, l3: Ledger)
    requires Extends(l1, l2) && Extends(l2, l3)
    ensures Extends(l1, l3)
  {
    assert l1.closes == l3.closes[..|l1.closes|] by {
      assert l1.closes == l2.closes[..|l1.closes|];
      assert l2.closes == l3.closes[..|l2.closes|];
    }
  }

  /** The OS opens a handle: a fresh, non-null id that becomes live. */
  function OpenHandle(l: Ledger): (r: (Handle, Ledger))
    requires Sound(l)
    ensures r.0 != NullHandle && r.0 != InvalidHandleValue
    ensures r.0 !in l.issued
    ensures Sound(r.1) && Extends(l, r.1)
    ensures r.1.closes == l.closes && r.1.frees == l.frees
    ensures Live(r.1) == Live(l) + {r.0}
  {
    (l.next, l.(next := l.next + 1, issued := l.issued + {l.next}))
  }

  /** `CloseHandle(h)`. On a live handle the history stays sound and `h`
      stops being live. */
  function CloseHandle(l: Ledger, h: Handle): (r: Ledger)
    ensures r.closes == l.closes + [h] && Closed(r) == Closed(l) + {h}
    ensures r.issued == l.issued && r.next == l.next && r.frees == l.frees
    ensures Sound(l) && h in Live(l) ==> Sound(r) && Live(r) == Live(l) - {h}
    ensures Extends(l, r)
  {
    var r := l.(closes := l.closes + [h]);
    assert forall i :: 0 <= i < |l.closes| ==> r.closes[i] == l.closes[i];
    assert r.closes[|l.closes|] == h;
    r
  }

  /** `FreeHGlobal` on the enumerator's buffer. */
  function FreeBuffer(l: Ledger): (r: Ledger)
    ensures r.frees == l.frees + 1
    ensures r.issued == l.issued && r.closes == l.closes && r.next == l.next
    ensures Extends(l, r)
  {
    l.(frees := l.frees + 1)
  }

  /** Closing handles in the order of `hs`, one `CloseHandle` call each. */
  function CloseAll(l: Ledger, hs: seq<Handle>): (r: Ledger)
    ensures r.closes == l.closes + hs
    ensures r.issued == l.issued && r.next == l.next && r.frees == l.frees
    ensures Closed(r) == Closed(l) + Elements(hs)
    decreases |hs|
  {
    if hs == [] then l
    else
      var r := CloseAll(CloseHandle(l, hs[0]), hs[1..]);
      assert r.closes == l.closes + hs by {
        assert [hs[0]] + hs[1..] == hs;
      }
      ElementsOfCons(hs);
      r
  }

  /** The handles of a sequence are its head's and its tail's. */
  lemma ElementsOfCons(hs: seq<Handle>)
    requires hs != []
    ensures Elements(hs) == {hs[0]} + Elements(hs[1..])
  {
    forall h | h in Elements(hs) ensures h in {hs[0]} + Elements(hs[1..]) {
      var i :| 0 <= i < |hs| && hs[i] == h;
      if i > 0 { assert hs[1..][i - 1] == h; }
    }
    forall h | h in Elements(hs[1..]) ensures h in Elements(hs) {
      var i :| 0 <= i < |hs[1..]| && hs[1..][i] == h;
      assert hs[i + 1] == h;
    }
  }

  /** The handles of a sequence with one more at the back. */
  lemma ElementsOfSnoc(hs: seq<Handle>, h: Handle)
    ensures Elements(hs + [h]) == Elements(hs) + {h}
  {
    forall x | x in Elements(hs + [h]) ensures x in Elements(hs) + {h} {
      var i :| 0 <= i < |hs + [h]| && (hs + [h])[i] == x;
      if i < |hs| { assert hs[i] == x; }
    }
    forall x | x in Elements(hs) ensures x in Elements(hs + [h]) {
      var i :| 0 <= i < |hs| && hs[i] == x;
      assert (hs + [h])[i] == x;
    }
    assert (hs + [h])[|hs|] == h;
  }

  /** Closing live, pairwise distinct handles keeps the history sound and
      leaves exactly the other handles live. */
  lemma {:induction false} CloseAllLive(l: Ledger, hs: seq<Handle>)
    requires Sound(l)
    requires NoDuplicates(hs)
    requires forall i :: 0 <= i < |hs| ==> hs[i] in Live(l)
    ensures Sound(CloseAll(l, hs))
    ensures Live(CloseAll(l, hs)) == Live(l) - Elements(hs)
    decreases |hs|
  {
    if hs != [] {
      var l1 := CloseHandle(l, hs[0]);
      assert forall i :: 0 <= i < |hs[1..]| ==> hs[1..][i] == hs[i + 1];
      CloseAllLive(l1, hs[1..]);
      ElementsOfCons(hs);
    }
  }
}
