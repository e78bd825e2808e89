/** The nodes of a linked list in list order, and how the order changes. */
module Orders {
  import opened Sequences

  ghost function Removed(order: seq<nat>, k: nat): seq<nat>
    requires k < |order|
  {
    order[..k] + order[k + 1..]
  }

  ghost function Inserted(order: seq<nat>, k: nat, n: nat): seq<nat>
    requires k < |order|
  {
    order[..k + 1] + [n] + order[k + 1..]
  }

  lemma OrderWithout(order: seq<nat>, k: nat)
    requires 0 < k < |order| && forall i, j :: 0 <= i < j < |order| ==> order[i] != order[j]
    ensures var o := Removed(order, k);
            && |o| == |order| - 1
            && (forall j :: 0 <= j < |o| ==> o[j] == if j < k then order[j] else order[j + 1])
            && (forall i, j :: 0 <= i < j < |o| ==> o[i] != o[j])
            && forall i :: i in o <==> i in order && i != order[k]
  {
    var o := Removed(order, k);
    assert forall i | i in order && i != order[k] :: i in o by {
      forall i | i in order && i != order[k] ensures i in o {
        var j :| 0 <= j < |order| && order[j] == i;
        assert o[if j < k then j else j - 1] == i;
      }
    }
  }

  lemma OrderWith(order: seq<nat>, k: nat, n: nat)
    requires k < |order| && n !in order && forall i, j :: 0 <= i < j < |order| ==> order[i] != order[j]
    ensures var o := Inserted(order, k, n);
            && |o| == |order| + 1
            && (forall j :: 0 <= j < |o| ==>
                  o[j] == if j <= k then order[j] else if j == k + 1 then n else order[j - 1])
            && (forall i, j :: 0 <= i < j < |o| ==> o[i] != o[j])
            && forall i :: i in o <==> i in order || i == n
  {
    var o := Inserted(order, k, n);
    forall i | i in order ensures i in o {
      var j :| 0 <= j < |order| && order[j] == i;
      assert o[if j <= k then j else j + 1] == i;
    }
  }

  lemma InsertedIs(order: seq<nat>, k: nat, n: nat)
    requires k < |order|
    ensures Inserted(order, k, n) == Replace(order, k, k + 1, [order[k], n])
  {
  }

  lemma RemovedIs(order: seq<nat>, k: nat)
    requires 0 < k < |order|
    ensures Removed(order, k) == Replace(order, k - 1, k + 1, [order[k - 1]])
    ensures k + 1 < |order| ==> Removed(order, k) == Replace(order, k, k + 2, [order[k + 1]])
  {
  }

  lemma InSlice(order: seq<nat>, i: nat, j: nat, p: nat)
    requires i <= p < j <= |order|
    ensures order[p] in order[i..j]
  {
    assert order[i..j][p - i] == order[p];
  }

  lemma InOrder(order: seq<nat>, k: nat)
    requires 0 < k < |order|
    ensures order[k - 1] in order && (k + 1 < |order| ==> order[k + 1] in order)
  {
  }

  lemma RemovedFront(order: seq<nat>, k: nat)
    requires 0 < k < |order|
    ensures |Removed(order, k)| == |order| - 1 && Removed(order, k)[k - 1] == order[k - 1]
  {
  }

  lemma InsertedBehind(order: seq<nat>, k: nat, n: nat)
    requires k < |order|
    ensures |Inserted(order, k, n)| == |order| + 1
    ensures Inserted(order, k, n)[k] == order[k] && Inserted(order, k, n)[k + 1] == n
  {
  }

  /** `o` is `order` with `n` behind position `k`. */
  ghost predicate Lengthened(order: seq<nat>, k: nat, n: nat, o: seq<nat>) {
    && k < |order| && |o| == |order| + 1 && o[k + 1] == n
    && (forall i :: 0 <= i <= k ==> o[i] == order[i])
    && (forall i :: k < i < |order| ==> o[i + 1] == order[i])
  }

  /** `o` is `order` without position `k + 1`. */
  ghost predicate Shortened(order: seq<nat>, k: nat, o: seq<nat>) {
    && k + 1 < |order| && |o| == |order| - 1
    && (forall i :: 0 <= i <= k ==> o[i] == order[i])
    && (forall i :: k + 1 < i < |order| ==> o[i - 1] == order[i])
  }

  lemma InsertedGrows(order: seq<nat>, k: nat, n: nat)
    requires k < |order|
    ensures Lengthened(order, k, n, Inserted(order, k, n))
  {
  }

  lemma RemovedShrinks(order: seq<nat>, k: nat)
    requires k + 1 < |order|
    ensures Shortened(order, k, Removed(order, k + 1))
  {
  }
}
