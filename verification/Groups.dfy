/** Functions applied group by group to a sequence. */
module Groups {
  // Cuts s into groups of n and concatenates their images; the last group is short, maybe empty.
  function Grouped<T, U>(n: nat, g: seq<T> -> seq<U>, s: seq<T>): seq<U>
    requires n > 0
    decreases |s|
  {
    if |s| < n then g(s) else g(s[..n]) + Grouped(n, g, s[n..])
  }

  // Whole groups map independently of what follows them.
  lemma {:induction false} GroupedConcat<T, U>(n: nat, g: seq<T> -> seq<U>, q: nat, a: seq<T>, b: seq<T>)
    requires n > 0 && |a| == n * q && g([]) == []
    ensures Grouped(n, g, a + b) == Grouped(n, g, a) + Grouped(n, g, b)
    decreases q
  {
    if q == 0 {
      assert a == [] && a + b == b;
    } else {
      var head, rest := a[..n], a[n..];
      assert |rest| == n * (q - 1);
      GroupedConcat(n, g, q - 1, rest, b);
      assert (a + b)[n..] == rest + b && (a + b)[..n] == head;
    }
  }

  // One more whole group.
  lemma GroupedStep<T, U>(n: nat, g: seq<T> -> seq<U>, q: nat, s: seq<T>, start: nat)
    requires n > 0 && start == n * q && start + n <= |s| && g([]) == []
    ensures Grouped(n, g, s[..start + n]) == Grouped(n, g, s[..start]) + g(s[start..start + n])
  {
    var group := s[start..start + n];
    GroupedConcat(n, g, q, s[..start], group);
    assert s[..start] + group == s[..start + n];
    assert group[..n] == group && group[n..] == [];
  }

  // The last, short group.
  lemma GroupedTail<T, U>(n: nat, g: seq<T> -> seq<U>, q: nat, s: seq<T>, start: nat)
    requires n > 0 && start == n * q && start <= |s| < start + n && g([]) == []
    ensures Grouped(n, g, s) == Grouped(n, g, s[..start]) + g(s[start..])
  {
    GroupedConcat(n, g, q, s[..start], s[start..]);
    assert s[..start] + s[start..] == s;
  }
}
