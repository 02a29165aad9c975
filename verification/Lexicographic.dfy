/** Lists of numbers compared from the front: the first difference decides. */
module Lexicographic {

  /** The first difference is in favour of `m`. */
  predicate Beats(m: seq<int>, n: seq<int>) {
    exists i :: 0 <= i < |m| && i < |n| && m[i] > n[i] && m[..i] == n[..i]
  }

  /** `verdict` is the sign of the first difference. */
  ghost predicate Weighs(verdict: int, m: seq<int>, n: seq<int>) {
    && (verdict == 1 <==> Beats(m, n))
    && (verdict == -1 <==> Beats(n, m))
    && (verdict == 0 <==> m == n)
  }

  function FirstDifference(m: seq<int>, n: seq<int>): (i: nat)
    requires |m| == |n|
    ensures i <= |m| && m[..i] == n[..i]
    ensures i < |m| ==> m[i] != n[i]
  {
    if m == [] || m[0] != n[0] then 0
    else
      var j := FirstDifference(m[1..], n[1..]);
      assert m[..j + 1] == [m[0]] + m[1..][..j] && n[..j + 1] == [n[0]] + n[1..][..j];
      j + 1
  }

  lemma BeatsAt(m: seq<int>, n: seq<int>, i: nat)
    requires i < |m| && i < |n| && m[i] != n[i] && m[..i] == n[..i]
    ensures Beats(m, n) <==> m[i] > n[i]
  {
    assert forall j :: 0 <= j < i ==> m[j] == m[..i][j] && n[j] == n[..i][j];
    if Beats(m, n) {
      var j :| 0 <= j < |m| && j < |n| && m[j] > n[j] && m[..j] == n[..j];
      assert forall k :: 0 <= k < j ==> m[k] == m[..j][k] && n[k] == n[..j][k];
    }
  }

  lemma WeighsAt(verdict: int, m: seq<int>, n: seq<int>, i: nat)
    requires |m| == |n| && i <= |m| && m[..i] == n[..i] && (i < |m| ==> m[i] != n[i])
    requires verdict == if i == |m| then 0 else if m[i] > n[i] then 1 else -1
    ensures Weighs(verdict, m, n)
  {
    if i < |m| {
      BeatsAt(m, n, i);
      BeatsAt(n, m, i);
    } else {
      assert m[..i] == m && n[..i] == n;
    }
  }

  /** What stands first in both does not matter. */
  lemma BeatsBehind(t: int, m: seq<int>, n: seq<int>)
    requires |m| == |n|
    ensures Beats([t] + m, [t] + n) <==> Beats(m, n)
    ensures [t] + m == [t] + n <==> m == n
  {
    assert ([t] + m)[1..] == m && ([t] + n)[1..] == n;
    var i := FirstDifference(m, n);
    if i < |m| {
      assert ([t] + m)[..i + 1] == [t] + m[..i] && ([t] + n)[..i + 1] == [t] + n[..i];
      BeatsAt(m, n, i);
      BeatsAt([t] + m, [t] + n, i + 1);
    } else {
      assert m[..i] == m && n[..i] == n;
    }
  }

  /** Of lists of one length, one beats what is beaten by what it beats. */
  lemma BeatsTransitive(m: seq<int>, n: seq<int>, o: seq<int>)
    requires |m| == |n| == |o| && Beats(m, n) && Beats(n, o)
    ensures Beats(m, o)
  {
    var i :| 0 <= i < |m| && m[i] > n[i] && m[..i] == n[..i];
    var j :| 0 <= j < |n| && n[j] > o[j] && n[..j] == o[..j];
    assert forall k :: 0 <= k < i ==> m[k] == m[..i][k] && n[k] == n[..i][k];
    assert forall k :: 0 <= k < j ==> n[k] == n[..j][k] && o[k] == o[..j][k];
    var k := if i < j then i else j;
    assert m[..k] == o[..k];
  }
}
