/** The XX/XX/XXXX layout both date formatters produce: f"{s[:2]}/{s[2:4]}/{s[4:]}" for an 8-character s. */
module Dates {

  function Slashed(s: string): (r: string)
    requires |s| == 8
    ensures |r| == 10 && r[2] == '/' && r[5] == '/'
  {
    s[..2] + "/" + s[2..4] + "/" + s[4..]
  }

  /** Removes the two separators again. */
  function Unslashed(r: string): string
    requires |r| == 10
  {
    r[..2] + r[3..5] + r[6..]
  }

  /** Slashed and Unslashed are inverse: no character is lost or moved apart from the separators. */
  lemma UnslashedSlashed(s: string)
    requires |s| == 8
    ensures Unslashed(Slashed(s)) == s
  {
    var r := Slashed(s);
    assert r[..2] == s[..2] && r[3..5] == s[2..4] && r[6..] == s[4..];
    assert s == s[..2] + s[2..4] + s[4..];
  }

  lemma SlashedUnslashed(r: string)
    requires |r| == 10 && r[2] == '/' && r[5] == '/'
    ensures Slashed(Unslashed(r)) == r
  {
    var s := Unslashed(r);
    assert s[..2] == r[..2] && s[2..4] == r[3..5] && s[4..] == r[6..];
    assert r == r[..2] + "/" + r[3..5] + "/" + r[6..];
  }

  /** Position k of Slashed(s), for k outside 2 and 5, holds the character of s that Unslashed maps it back to. */
  lemma SlashedAt(s: string, k: nat)
    requires |s| == 8 && k < 10 && k != 2 && k != 5
    ensures Slashed(s)[k] == s[if k < 2 then k else if k < 5 then k - 1 else k - 2]
  {
  }
}
