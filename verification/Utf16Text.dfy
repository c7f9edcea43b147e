/** Code points of a UTF-16 text, ill-formed or not (Unicode Standard, section 3.9):
    an unpaired surrogate is a code point of its own. */
module Utf16Text {
  import opened CInt

  type Text = seq<uint16>

  predicate IsLead(c: uint16) { c / 0x400 == 0x36 }
  predicate IsTrail(c: uint16) { c / 0x400 == 0x37 }
  predicate IsSurrogate(c: uint16) { c / 0x800 == 0x1b }
  // Asked only of surrogates.
  predicate IsSurrogateLead(c: uint16) { c / 0x400 % 2 == 0 }

  type CodePoint = c: int | 0 <= c <= 0x10ffff

  // The code point a step returns as a unit and, for a pair, a second one; 0 means none.
  function CodePointOf(c: uint16, c2: uint16): CodePoint
    requires c2 != 0 ==> IsLead(c) && IsTrail(c2)
  {
    if c2 == 0 then c as int else 0x10000 + (c as int - 0xd800) * 0x400 + (c2 as int - 0xdc00)
  }

  // Pairs stand in the order of their units, from U+10000 up to U+10FFFF, without gaps.
  lemma PairsInOrder(c: uint16, c2: uint16)
    requires IsLead(c) && IsTrail(c2)
    ensures c == 0xd800 && c2 == 0xdc00 ==> CodePointOf(c, c2) == 0x1_0000
    ensures c == 0xdbff && c2 == 0xdfff ==> CodePointOf(c, c2) == 0x10_ffff
    ensures c2 < 0xdfff ==> CodePointOf(c, c2 + 1) == CodePointOf(c, c2) + 1
    ensures c < 0xdbff && c2 == 0xdfff ==> CodePointOf(c + 1, 0xdc00) == CodePointOf(c, c2) + 1
  {
  }

  // How many units the first and the last code point of a text take.
  function FirstLength(s: Text): nat
    requires s != []
  {
    if |s| >= 2 && IsLead(s[0]) && IsTrail(s[1]) then 2 else 1
  }

  function LastLength(s: Text): nat
    requires s != []
  {
    if |s| >= 2 && IsLead(s[|s| - 2]) && IsTrail(s[|s| - 1]) then 2 else 1
  }

  function Single(u: Text): CodePoint
    requires |u| == 1 || (|u| == 2 && IsLead(u[0]) && IsTrail(u[1]))
  {
    CodePointOf(u[0], if |u| == 2 then u[1] else 0)
  }

  // The code points met walking forward from the start ...
  function Forward(s: Text): seq<CodePoint> {
    if s == [] then []
    else var n := FirstLength(s); [Single(s[..n])] + Forward(s[n..])
  }

  // ... and backward from the end.
  function Backward(s: Text): seq<CodePoint> {
    if s == [] then []
    else var n := |s| - LastLength(s); [Single(s[n..])] + Backward(s[..n])
  }

  function Reversed<A>(cs: seq<A>): seq<A> {
    if cs == [] then [] else Reversed(cs[1..]) + [cs[0]]
  }

  lemma {:induction false} ReversedAppend<A>(cs: seq<A>, c: A)
    ensures Reversed(cs + [c]) == [c] + Reversed(cs)
  {
    if cs != [] {
      ReversedAppend(cs[1..], c);
      assert (cs + [c])[1..] == cs[1..] + [c];
    }
  }

  // A first code point that is not the whole text is cut off without touching the last one:
  // a lead surrogate is not a trail surrogate.
  lemma CutsDoNotCross(s: Text)
    requires s != [] && FirstLength(s) < |s|
    ensures var a, n := FirstLength(s), |s| - LastLength(s);
      a <= n && LastLength(s[a..]) == LastLength(s) && FirstLength(s[..n]) == a
  {
  }

  lemma ForwardStep(s: Text, a: nat)
    requires s != [] && a == FirstLength(s)
    ensures Forward(s) == [Single(s[..a])] + Forward(s[a..])
  {
  }

  lemma SlicesOfSlices(s: Text, a: nat, n: nat)
    requires a <= n <= |s|
    ensures s[a..][..n - a] == s[a..n] && s[a..][n - a..] == s[n..]
    ensures s[..n][..a] == s[..a] && s[..n][a..] == s[a..n]
  {
  }

  lemma Associates<A>(a: seq<A>, b: seq<A>, c: seq<A>)
    ensures a + (b + c) == (a + b) + c
  {
  }

  // Walking forward meets the last code point last: the two directions cut the text alike.
  lemma {:induction false} ForwardEndsWithLast(s: Text, n: nat)
    requires s != [] && n + LastLength(s) == |s|
    ensures Forward(s) == Forward(s[..n]) + [Single(s[n..])]
    decreases |s|
  {
    var a := FirstLength(s);
    if a < |s| {
      CutsDoNotCross(s);
      hide *;
      SlicesOfSlices(s, a, n);
      ForwardEndsWithLast(s[a..], n - a);
      ForwardStep(s, a);
      ForwardStep(s[..n], a);
      Associates([Single(s[..a])], Forward(s[a..n]), [Single(s[n..])]);
    } else {
      OneCodePoint(s, n);
    }
  }

  lemma OneCodePoint(s: Text, n: nat)
    requires s != [] && FirstLength(s) >= |s| && n + LastLength(s) == |s|
    ensures Forward(s) == Forward(s[..n]) + [Single(s[n..])]
  {
    assert n == 0;
    assert s[..n] == [] && s[n..] == s && s[..|s|] == s && s[|s|..] == [];
    hide Single, LastLength;
    ForwardStep(s, FirstLength(s));
    hide FirstLength;
  }

  // Main result: the two walks give exactly reversed lists, whatever the text.
  lemma {:induction false} BackwardIsReversed(s: Text)
    ensures Backward(s) == Reversed(Forward(s))
    decreases |s|
  {
    if s != [] {
      var n := |s| - LastLength(s);
      BackwardIsReversed(s[..n]);
      ForwardEndsWithLast(s, n);
      ReversedAppend(Forward(s[..n]), Single(s[n..]));
    }
  }

  // ---- Encoding

  function LeadOf(c: CodePoint): uint16
    requires c > 0xffff
  { (c / 0x400 + 0xd7c0) as uint16 }

  function TrailOf(c: CodePoint): uint16
    requires c > 0xffff
  { (c % 0x400 + 0xdc00) as uint16 }

  function Encode(c: CodePoint): Text {
    if c <= 0xffff then [c as uint16] else [LeadOf(c), TrailOf(c)]
  }

  function EncodeAll(cs: seq<CodePoint>): Text {
    if cs == [] then [] else Encode(cs[0]) + EncodeAll(cs[1..])
  }

  lemma PairIsEncoded(u: Text)
    requires |u| == 1 || (|u| == 2 && IsLead(u[0]) && IsTrail(u[1]))
    ensures Encode(Single(u)) == u
  {
    if |u| == 2 {
      var c := Single(u);
      assert c == 0x400 * (u[0] as int - 0xd7c0) + (u[1] as int - 0xdc00);
    }
  }

  // No unit is lost or invented: the code points encode back to the text.
  lemma {:induction false} ForwardEncodes(s: Text)
    ensures EncodeAll(Forward(s)) == s
  {
    if s != [] {
      var n := FirstLength(s);
      PairIsEncoded(s[..n]);
      ForwardEncodes(s[n..]);
      assert Forward(s)[1..] == Forward(s[n..]);
    }
  }

  lemma EncodedIsOne(c: CodePoint)
    ensures var u := Encode(c);
      && (|u| == 1 || (|u| == 2 && IsLead(u[0]) && IsTrail(u[1]))) && Single(u) == c
      && IsTrail(u[0]) == (0xdc00 <= c <= 0xdfff)
      && (IsLead(u[|u| - 1]) <==> 0xd800 <= c <= 0xdbff)
  {
  }

  // No lead surrogate is followed by a trail surrogate.
  predicate NoSplitPair(cs: seq<CodePoint>) {
    |cs| < 2 || (!(0xd800 <= cs[0] <= 0xdbff && 0xdc00 <= cs[1] <= 0xdfff) && NoSplitPair(cs[1..]))
  }

  // ... and code points come back from their encoding exactly when it joins none of them.
  lemma {:induction false} EncodedComesBack(cs: seq<CodePoint>)
    ensures Forward(EncodeAll(cs)) == cs <==> NoSplitPair(cs)
  {
    if cs != [] {
      var c, rest := cs[0], EncodeAll(cs[1..]);
      var s := Encode(c) + rest;
      EncodedComesBack(cs[1..]);
      EncodedIsOne(c);
      if |cs| > 1 { EncodedIsOne(cs[1]); }
      hide Encode, IsLead, IsTrail;
      var n := FirstLength(s);
      if n == |Encode(c)| {
        assert s[..n] == Encode(c) && s[n..] == rest;
      } else {
        assert |Encode(c)| == 1 && s[1] == rest[0] && cs[1..] != [];
        JoinedPair(s[..2]);
      }
    }
  }

  lemma JoinedPair(u: Text)
    requires |u| == 2 && IsLead(u[0]) && IsTrail(u[1])
    ensures Single(u) > 0xffff
  {
  }
}
