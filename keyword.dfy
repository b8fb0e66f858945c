/**
 * The search keyword as it is embedded in a listing URL: every space is
 * replaced by the three characters `%20`, and nothing else is touched
 * (`str.replace(' ', '%20')`).
 */
module Keyword {

  /** Number of space characters in `s`. */
  function CountSpaces(s: string): nat
  {
    if s == [] then 0 else (if s[0] == ' ' then 1 else 0) + CountSpaces(s[1..])
  }

  /** What one input character becomes in the encoded keyword. */
  function EncodeChar(c: char): string
  {
    if c == ' ' then "%20" else [c]
  }

  /** The keyword with each space replaced by `%20`. */
  function Encode(kw: string): (r: string)
    ensures ' ' !in r
    ensures |r| == |kw| + 2 * CountSpaces(kw)
  {
    if kw == [] then [] else EncodeChar(kw[0]) + Encode(kw[1..])
  }

  /** Encoding works character by character, so it distributes over concatenation. */
  lemma {:induction false} EncodeAppend(a: string, b: string)
    ensures Encode(a + b) == Encode(a) + Encode(b)
    ensures CountSpaces(a + b) == CountSpaces(a) + CountSpaces(b)
  {
    if a == [] {
      assert a + b == b;
    } else {
      assert (a + b)[0] == a[0];
      assert (a + b)[1..] == a[1..] + b;
      EncodeAppend(a[1..], b);
    }
  }

  /**
   * Where each input character lands: the character at index `i` is found at
   * index `i + 2 * (spaces before it)` of the result, unchanged when it is not a
   * space and as exactly `%20` when it is.
   */
  lemma EncodeAt(kw: string, i: nat)
    requires i < |kw|
    ensures var j := i + 2 * CountSpaces(kw[..i]);
            j + |EncodeChar(kw[i])| <= |Encode(kw)| &&
            Encode(kw)[j..j + |EncodeChar(kw[i])|] == EncodeChar(kw[i])
  {
    var pre, mid, post := kw[..i], [kw[i]], kw[i + 1..];
    assert kw == pre + mid + post;
    EncodeAppend(pre + mid, post);
    EncodeAppend(pre, mid);
    assert Encode(mid) == EncodeChar(kw[i]) by {
      assert mid[1..] == [];
    }
    var j := i + 2 * CountSpaces(pre);
    assert |Encode(pre)| == j;
    assert Encode(kw) == Encode(pre) + EncodeChar(kw[i]) + Encode(post);
  }

  /** A keyword without spaces is used verbatim. */
  lemma {:induction false} EncodeNoSpaces(kw: string)
    requires ' ' !in kw
    ensures Encode(kw) == kw
  {
    if kw != [] {
      assert kw[0] in kw;
      assert forall c | c in kw[1..] :: c in kw;
      EncodeNoSpaces(kw[1..]);
      assert kw == [kw[0]] + kw[1..];
    }
  }

  /** Encoding an already encoded keyword changes nothing. */
  lemma EncodeIdempotent(kw: string)
    ensures Encode(Encode(kw)) == Encode(kw)
  {
    EncodeNoSpaces(Encode(kw));
  }

  /** Reverse of the encoding: every `%20` becomes a space again. */
  function Decode(s: string): string
  {
    if |s| >= 3 && s[..3] == "%20" then " " + Decode(s[3..])
    else if s == [] then []
    else [s[0]] + Decode(s[1..])
  }

  /**
   * For a keyword without `%`, decoding gives the keyword back, so no
   * character of it is lost, added or reordered by the encoding.
   */
  lemma {:induction false} DecodeEncode(kw: string)
    requires '%' !in kw
    ensures Decode(Encode(kw)) == kw
  {
    if kw != [] {
      assert kw[0] in kw;
      assert forall c | c in kw[1..] :: c in kw;
      DecodeEncode(kw[1..]);
      var rest := Encode(kw[1..]);
      if kw[0] == ' ' {
        assert Encode(kw) == "%20" + rest;
        assert ("%20" + rest)[..3] == "%20";
        assert ("%20" + rest)[3..] == rest;
      } else {
        var s := [kw[0]] + rest;
        assert Encode(kw) == s;
        assert s[0] == kw[0] && s[0] != '%';
        assert s[1..] == rest;
        assert kw == [kw[0]] + kw[1..];
      }
    }
  }
}
