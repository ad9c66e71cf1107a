/** Character-level text helpers: JavaScript's `toLowerCase`, the accent
    stripping of `normalize('NFD').replace(/[̀-ͯ]/g, '')`, and
    `String.prototype.includes`. Case folding and decomposition are modelled
    over Latin-1, the alphabet the inventory names are written in. */
module Text {

  /** True for the combining diacritical marks U+0300..U+036F, which the
      normalizer deletes. */
  predicate IsCombining(c: char) {
    '\U{300}' <= c <= '\U{36F}'
  }

  /** `toLowerCase` on one character: ASCII A-Z and the Latin-1 capitals
      U+00C0..U+00DE except the multiplication sign U+00D7. */
  function Lower(c: char): (d: char)
    ensures 'A' <= c <= 'Z' ==> 'a' <= d <= 'z'
    ensures !('A' <= c <= 'Z') && !('\U{C0}' <= c <= '\U{DE}') ==> d == c
    ensures !('A' <= d <= 'Z')
  {
    if 'A' <= c <= 'Z' then (c as int + 32) as char
    else if '\U{C0}' <= c <= '\U{DE}' && c != '\U{D7}' then (c as int + 32) as char
    else c
  }

  function LowerString(s: string): (t: string)
    ensures |t| == |s|
    ensures forall i :: 0 <= i < |s| ==> t[i] == Lower(s[i])
  {
    if s == [] then [] else [Lower(s[0])] + LowerString(s[1..])
  }

  /** The base letter left when the canonical decomposition of a lower-case
      Latin-1 letter has its combining mark removed (á -> a, ñ -> n, ...). */
  function Base(c: char): char {
    if '\U{E0}' <= c <= '\U{E5}' then 'a'
    else if c == '\U{E7}' then 'c'
    else if '\U{E8}' <= c <= '\U{EB}' then 'e'
    else if '\U{EC}' <= c <= '\U{EF}' then 'i'
    else if c == '\U{F1}' then 'n'
    else if '\U{F2}' <= c <= '\U{F6}' then 'o'
    else if '\U{F9}' <= c <= '\U{FC}' then 'u'
    else if c == '\U{FD}' || c == '\U{FF}' then 'y'
    else c
  }

  /** `normalizar` of the inventory update: lower-case, decompose, and drop
      every combining mark. */
  function Normalize(s: string): (t: string)
    ensures |t| <= |s|
    ensures forall i :: 0 <= i < |t| ==> !IsCombining(t[i]) && !('A' <= t[i] <= 'Z')
    ensures forall i :: 0 <= i < |t| ==> Base(Lower(t[i])) == t[i]
    ensures (forall i :: 0 <= i < |s| ==> !IsCombining(s[i])) ==>
      |t| == |s| && forall i :: 0 <= i < |s| ==> t[i] == Base(Lower(s[i]))
  {
    if s == [] then []
    else if IsCombining(s[0]) then Normalize(s[1..])
    else
      FoldCharIdempotent(s[0]);
      assert forall i :: 0 < i < |s| ==> s[1..][i - 1] == s[i];
      [Base(Lower(s[0]))] + Normalize(s[1..])
  }

  lemma FoldCharIdempotent(c: char)
    ensures Base(Lower(Base(Lower(c)))) == Base(Lower(c))
    ensures !IsCombining(Base(Lower(c))) || IsCombining(c)
  {
  }

  /** Normalizing twice is the same as normalizing once, so comparing
      normalized names is an equivalence on names. */
  lemma {:induction false} NormalizeIdempotent(s: string)
    ensures Normalize(Normalize(s)) == Normalize(s)
  {
    if s == [] {
    } else if IsCombining(s[0]) {
      NormalizeIdempotent(s[1..]);
    } else {
      var c := Base(Lower(s[0]));
      FoldCharIdempotent(s[0]);
      NormalizeIdempotent(s[1..]);
      assert ([c] + Normalize(s[1..]))[1..] == Normalize(s[1..]);
    }
  }

  /** `needle` occurs in `hay` starting at position `i`. */
  predicate OccursAt(hay: string, needle: string, i: nat) {
    i + |needle| <= |hay| && hay[i..i + |needle|] == needle
  }

  /** `hay.includes(needle)`. */
  predicate Contains(hay: string, needle: string) {
    exists i: nat :: i <= |hay| && OccursAt(hay, needle, i)
  }

  lemma ContainsSelf(s: string)
    ensures Contains(s, s)
  {
    assert OccursAt(s, s, 0);
  }
}
