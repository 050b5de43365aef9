/** Chains of linked elements, and the connectivity they give. A link is a symmetric relation. */
module Chains {

  ghost predicate Chain<T(!new)>(link: (T, T) -> bool, path: seq<T>) {
    && |path| > 0
    && (forall i, j :: 0 <= i < j < |path| && j == i + 1 ==> link(path[i], path[j]))
  }

  ghost predicate ChainBetween<T(!new)>(link: (T, T) -> bool, path: seq<T>, a: T, b: T) {
    Chain(link, path) && path[0] == a && path[|path| - 1] == b
  }

  ghost predicate Connected<T(!new)>(link: (T, T) -> bool, a: T, b: T) {
    exists path :: ChainBetween(link, path, a, b)
  }

  ghost predicate Symmetric<T(!new)>(link: (T, T) -> bool) {
    forall a, b :: link(a, b) ==> link(b, a)
  }

  lemma ConnectedSelf<T(!new)>(link: (T, T) -> bool, a: T)
    ensures Connected(link, a, a)
  {
    assert ChainBetween(link, [a], a, a);
  }

  lemma ConnectedStep<T(!new)>(link: (T, T) -> bool, a: T, b: T, c: T)
    requires Connected(link, a, b) && link(b, c)
    ensures Connected(link, a, c)
  {
    var path :| ChainBetween(link, path, a, b);
    assert ChainBetween(link, path + [c], a, c);
  }

  lemma ChainTail<T(!new)>(link: (T, T) -> bool, path: seq<T>)
    requires Chain(link, path) && |path| > 1
    ensures link(path[0], path[1]) && Chain(link, path[1..])
  {
  }

  lemma {:induction false} ConnectedAlong<T(!new)>(link: (T, T) -> bool, a: T, path: seq<T>)
    requires Chain(link, path) && Connected(link, a, path[0])
    ensures Connected(link, a, path[|path| - 1])
    decreases |path|
  {
    if |path| > 1 {
      ChainTail(link, path);
      ConnectedStep(link, a, path[0], path[1]);
      ConnectedAlong(link, a, path[1..]);
    }
  }

  lemma ConnectedTransitive<T(!new)>(link: (T, T) -> bool, a: T, b: T, c: T)
    requires Connected(link, a, b) && Connected(link, b, c)
    ensures Connected(link, a, c)
  {
    var path :| ChainBetween(link, path, b, c);
    ConnectedAlong(link, a, path);
  }

  lemma ConnectedSymmetric<T(!new)>(link: (T, T) -> bool, a: T, b: T)
    requires Symmetric(link) && Connected(link, a, b)
    ensures Connected(link, b, a)
  {
    var path :| ChainBetween(link, path, a, b);
    var n := |path|;
    var back := seq(n, m requires 0 <= m < n => path[n - 1 - m]);
    forall i, j | 0 <= i < j < n && j == i + 1 ensures link(back[i], back[j]) {
      assert link(path[n - 1 - j], path[n - 1 - i]);
    }
    assert ChainBetween(link, back, b, a);
  }

  lemma ConnectedByMore<T(!new)>(link: (T, T) -> bool, more: (T, T) -> bool, a: T, b: T)
    requires Connected(link, a, b) && forall x, y :: link(x, y) ==> more(x, y)
    ensures Connected(more, a, b)
  {
    var path :| ChainBetween(link, path, a, b);
    assert ChainBetween(more, path, a, b);
  }
}
