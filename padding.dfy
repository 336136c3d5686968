/** The padding repair applied to every payload before it is base64-decoded
    (`fix_base64_padding`): append `=` until the length is a multiple of 4,
    the padding rule of section 4 of RFC 4648. */
module Padding {

  /** The base64 padding character. */
  const PadChar: char := '='

  /** `k` copies of the padding character (Python's `"=" * k`). */
  function PadRun(k: nat): (p: string)
    ensures |p| == k
    ensures forall i :: 0 <= i < k ==> p[i] == PadChar
  {
    if k == 0 then [] else PadRun(k - 1) + [PadChar]
  }

  /** `fix_base64_padding`: when the length leaves a remainder modulo 4,
      append `4 - remainder` padding characters; otherwise return the input. */
  function FixPadding(s: string): (r: string)
    ensures IsPaddingOf(s, r)
  {
    var padding := |s| % 4;
    if padding != 0 then s + PadRun(4 - padding) else s
  }

  /** Independent description of a correct repair of `s`: `t` keeps `s` as a
      prefix, adds at most three characters, all of them padding, and has a
      length that is a multiple of 4. */
  ghost predicate IsPaddingOf(s: string, t: string) {
    && |s| <= |t| < |s| + 4
    && |t| % 4 == 0
    && t[..|s|] == s
    && forall i :: |s| <= i < |t| ==> t[i] == PadChar
  }

  /** The repair is exactly the unique string described by `IsPaddingOf`. */
  lemma FixPaddingIsThePadding(s: string, t: string)
    ensures IsPaddingOf(s, t) <==> t == FixPadding(s)
  {
    var r := FixPadding(s);
    if IsPaddingOf(s, t) {
      forall i | 0 <= i < |t| ensures t[i] == r[i] {
        if i < |s| {
          assert t[i] == t[..|s|][i] && r[i] == r[..|s|][i];
        }
      }
    }
  }

  /** The output length is the smallest multiple of 4 not below the input length. */
  lemma ShortestAlignedLength(s: string, m: nat)
    requires m % 4 == 0 && |s| <= m
    ensures |FixPadding(s)| <= m
  {
  }

  /** Input whose length is already a multiple of 4 is returned unchanged, and
      only such input is. */
  lemma FixPaddingFixedPoint(s: string)
    ensures FixPadding(s) == s <==> |s| % 4 == 0
  {
  }

  /** Repairing twice is repairing once. */
  lemma FixPaddingIdempotent(s: string)
    ensures FixPadding(FixPadding(s)) == FixPadding(s)
  {
    FixPaddingFixedPoint(FixPadding(s));
  }

  /** A sender that drops up to three trailing `=` from a correctly padded
      string gets that string back from the repair. */
  lemma RestoresDroppedPadding(t: string, k: nat)
    requires |t| % 4 == 0 && k <= 3 && k <= |t|
    requires forall i :: |t| - k <= i < |t| ==> t[i] == PadChar
    ensures FixPadding(t[..|t| - k]) == t
  {
    var s := t[..|t| - k];
    assert t[..|s|] == s;
    assert IsPaddingOf(s, t);
    FixPaddingIsThePadding(s, t);
  }
}
