/** What the rest of the kernel asks of a page-table manager; addresses are words of either width. */
module Calls {

  datatype Call<W> =
    | MapCall(root: nat, virt: W, phys: W, flags: W)
    | UnmapCall(root: nat, virt: W)

  /** Roots and frames are named by their page numbers. */
  datatype Request<W> =
    | Change(call: Call<W>)
    | NewSpace
    | CloneSpace(source: nat, target: nat)
    | Switch(root: nat)
    | TakeFrame
    | GiveFrame(page: nat)

  function Each<A, B>(f: A -> B, s: seq<A>): (t: seq<B>)
    ensures |t| == |s| && forall k :: 0 <= k < |s| ==> t[k] == f(s[k])
  {
    seq(|s|, i requires 0 <= i < |s| => f(s[i]))
  }

  lemma EachIn<A, B>(f: A -> B, s: seq<A>, b: B) returns (a: A)
    requires b in Each(f, s)
    ensures a in s && f(a) == b
  {
    var k :| 0 <= k < |s| && Each(f, s)[k] == b;
    a := s[k];
  }

  lemma EachPrefix<A, B>(f: A -> B, s: seq<A>, k: nat)
    requires k <= |s|
    ensures Each(f, s)[..k] == Each(f, s[..k])
  {
  }
}
