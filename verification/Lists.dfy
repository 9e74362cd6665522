/** Queues of numbers without repetition, as the linked lists of the kernel hold them. */
module Lists {

  /** The list with its first l unlinked. */
  function Without(q: seq<nat>, l: nat): seq<nat> {
    if q == [] then [] else if q[0] == l then q[1..] else [q[0]] + Without(q[1..], l)
  }

  ghost predicate NoDup(q: seq<nat>) {
    forall i, j :: 0 <= i < j < |q| ==> q[i] != q[j]
  }

  lemma {:induction false} WithoutOk(q: seq<nat>, l: nat)
    requires NoDup(q)
    ensures NoDup(Without(q, l))
    ensures forall x :: x in Without(q, l) <==> x in q && x != l
    decreases q
  {
    hide NoDup;
    if q != [] {
      TailNoDup(q);
      WithoutOk(q[1..], l);
      ConsNoDup(q[0], Without(q[1..], l));
      assert q == [q[0]] + q[1..];
    }
  }

  lemma {:induction false} TailNoDup(q: seq<nat>)
    requires q != [] && NoDup(q)
    ensures NoDup(q[1..]) && q[0] !in q[1..]
  {
    var rest := q[1..];
    forall i | 0 <= i < |rest| ensures rest[i] != q[0] { assert rest[i] == q[i + 1]; }
  }

  lemma {:induction false} ConsNoDup(x: nat, w: seq<nat>)
    requires NoDup(w) && x !in w
    ensures NoDup([x] + w)
  {
    assert forall i :: 0 <= i < |w| ==> w[i] in w;
  }
}
