/** The snippet shown under an engaged pull request. Bodies are byte
    strings: one char stands for one byte, as string length and slicing do
    in Go. */
module Snippets {

  /** Bodies this long or longer are cut. */
  const ShortLen: nat := 100

  const Ellipsis: string := "..."

  function Min(a: int, b: int): int {
    if a < b then a else b
  }

  /** A body shorter than ShortLen is kept whole; any other body keeps its
      first ShortLen bytes followed by the ellipsis, so a body of exactly
      ShortLen bytes gets the ellipsis too. */
  function ShortBody(body: string): (r: string)
    ensures |body| < ShortLen ==> r == body
    ensures ShortLen <= |body| ==> |r| == ShortLen + |Ellipsis| && r[ShortLen..] == Ellipsis
    ensures |r| <= ShortLen + |Ellipsis|
    ensures |r| == |body| || |r| == ShortLen + |Ellipsis|
    ensures r[..Min(|body|, ShortLen)] == body[..Min(|body|, ShortLen)]
  {
    if |body| < ShortLen then body else body[..ShortLen] + Ellipsis
  }

  /** Two bodies give the same snippet when they are equal, or both are at
      least ShortLen long and share their first ShortLen bytes. */
  lemma ShortBodyDependsOnPrefix(a: string, b: string)
    ensures ShortBody(a) == ShortBody(b) <==>
      a == b || (ShortLen <= |a| && ShortLen <= |b| && a[..ShortLen] == b[..ShortLen])
  {
    var ra, rb := ShortBody(a), ShortBody(b);
    if ra == rb && ShortLen <= |a| && ShortLen <= |b| {
      assert a[..ShortLen] == ra[..ShortLen] == rb[..ShortLen] == b[..ShortLen];
    }
  }

  /** A body of exactly ShortLen bytes keeps all its bytes and gains the
      ellipsis. */
  lemma ShortBodyAtLimit(body: string)
    requires |body| == ShortLen
    ensures ShortBody(body) == body + Ellipsis
  {
    assert body[..ShortLen] == body;
  }
}
