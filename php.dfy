/** The PHP string built-ins the two employee-settings forms rely on:
    trim(), empty() on a string, explode() with a one-byte delimiter, and
    the end anchor of a preg_match() pattern. PHP strings are byte strings;
    a Byte here is a character whose code is below 256, standing for the
    byte of the same value. */
module Php {

  type Byte = c: char | c as int < 256
  type Bytes = seq<Byte>

  /** The bytes trim() strips by default: space, tab, newline, carriage
      return, NUL and vertical tab. */
  predicate IsTrimByte(b: Byte) {
    b == ' ' || b == '\t' || b == '\n' || b == '\r' || b == '\0' || b == '\U{0B}'
  }

  predicate AllTrimBytes(s: Bytes) {
    forall i | 0 <= i < |s| :: IsTrimByte(s[i])
  }

  /** Neither end of s is a byte trim() would strip. */
  predicate IsTrimmed(s: Bytes) {
    s == [] || (!IsTrimByte(s[0]) && !IsTrimByte(s[|s| - 1]))
  }

  /** r is what is left of s once a run of trim bytes is taken off each end. */
  ghost predicate StripsTo(s: Bytes, r: Bytes) {
    exists i, j | 0 <= i <= j <= |s| ::
      r == s[i..j] && AllTrimBytes(s[..i]) && AllTrimBytes(s[j..])
  }

  /** The number of trim bytes s starts with. */
  function LeadingTrimCount(s: Bytes): (n: nat)
    ensures n <= |s|
    ensures AllTrimBytes(s[..n])
    ensures n < |s| ==> !IsTrimByte(s[n])
  {
    if s != [] && IsTrimByte(s[0]) then 1 + LeadingTrimCount(s[1..]) else 0
  }

  /** The number of trim bytes s ends with. */
  function TrailingTrimCount(s: Bytes): (n: nat)
    ensures n <= |s|
    ensures AllTrimBytes(s[|s| - n..])
    ensures n < |s| ==> !IsTrimByte(s[|s| - 1 - n])
  {
    if s != [] && IsTrimByte(s[|s| - 1]) then 1 + TrailingTrimCount(s[..|s| - 1]) else 0
  }

  /** trim($s) with the default character list: strips every leading and
      every trailing trim byte. */
  function Trim(s: Bytes): (r: Bytes)
    ensures IsTrimmed(r)
    ensures |r| <= |s|
  {
    var t := s[LeadingTrimCount(s)..];
    t[..|t| - TrailingTrimCount(t)]
  }

  /** What trim() leaves is s less a run of trim bytes at each end. */
  lemma TrimStrips(s: Bytes)
    ensures StripsTo(s, Trim(s))
  {
    var i := LeadingTrimCount(s);
    var t := s[i..];
    var j := i + |t| - TrailingTrimCount(t);
    assert Trim(s) == s[i..j];
    assert s[j..] == t[|t| - TrailingTrimCount(t)..];
  }

  /** The leading trim count is the position of the first non-trim byte. */
  lemma LeadingTrimCountIs(s: Bytes, i: nat)
    requires i <= |s| && AllTrimBytes(s[..i]) && (i < |s| ==> !IsTrimByte(s[i]))
    ensures LeadingTrimCount(s) == i
  {
    var n := LeadingTrimCount(s);
    forall k | 0 <= k < i ensures IsTrimByte(s[k]) {
      assert s[..i][k] == s[k];
    }
    forall k | 0 <= k < n ensures IsTrimByte(s[k]) {
      assert s[..n][k] == s[k];
    }
  }

  /** The trailing trim count is the length of the final run of trim bytes. */
  lemma TrailingTrimCountIs(s: Bytes, e: nat)
    requires e <= |s| && AllTrimBytes(s[|s| - e..]) && (e < |s| ==> !IsTrimByte(s[|s| - 1 - e]))
    ensures TrailingTrimCount(s) == e
  {
    var m := TrailingTrimCount(s);
    forall k | |s| - e <= k < |s| ensures IsTrimByte(s[k]) {
      assert s[|s| - e..][k - (|s| - e)] == s[k];
    }
    forall k | |s| - m <= k < |s| ensures IsTrimByte(s[k]) {
      assert s[|s| - m..][k - (|s| - m)] == s[k];
    }
  }

  /** Trim is the only way to take trim bytes off the ends of s and be left
      with a trimmed string. */
  lemma TrimUnique(s: Bytes, r: Bytes)
    requires StripsTo(s, r) && IsTrimmed(r)
    ensures r == Trim(s)
  {
    var i, j :| 0 <= i <= j <= |s| && r == s[i..j] && AllTrimBytes(s[..i]) && AllTrimBytes(s[j..]);
    if i == j {
      StripsToEmpty(s, i);
    } else {
      StripsToNonEmpty(s, i, j);
    }
  }

  /** A string that strips to nothing is all trim bytes and trims to nothing. */
  lemma StripsToEmpty(s: Bytes, i: nat)
    requires i <= |s| && AllTrimBytes(s[..i]) && AllTrimBytes(s[i..])
    ensures Trim(s) == []
  {
    assert AllTrimBytes(s) by {
      forall k | 0 <= k < |s| ensures IsTrimByte(s[k]) {
        if k < i { assert s[..i][k] == s[k]; } else { assert s[i..][k - i] == s[k]; }
      }
    }
    LeadingTrimCountIs(s, |s|);
  }

  /** Stripping to a non-empty trimmed middle s[i..j] is what Trim does. */
  lemma StripsToNonEmpty(s: Bytes, i: nat, j: nat)
    requires i < j <= |s| && AllTrimBytes(s[..i]) && AllTrimBytes(s[j..])
    requires IsTrimmed(s[i..j])
    ensures Trim(s) == s[i..j]
  {
    assert s[i] == s[i..j][0];
    LeadingTrimCountIs(s, i);
    var t := s[i..];
    assert t[|t| - (|s| - j)..] == s[j..];
    assert t[j - i - 1] == s[i..j][j - i - 1];
    TrailingTrimCountIs(t, |s| - j);
    assert t[..j - i] == s[i..j];
  }

  /** Trimming twice is trimming once. */
  lemma TrimIdempotent(s: Bytes)
    ensures Trim(Trim(s)) == Trim(s)
  {
    TrimOfTrimmed(Trim(s));
  }

  /** A string with no trim byte at either end is its own trim. */
  lemma TrimOfTrimmed(s: Bytes)
    requires IsTrimmed(s)
    ensures Trim(s) == s
  {
    assert s[..0] == [] && s[|s|..] == [] && s == s[0..|s|];
    TrimUnique(s, s);
  }

  /** PHP empty() on a string: true for "" and for "0". */
  predicate IsEmpty(s: Bytes) {
    s == [] || s == "0"
  }

  /** preg_match() of a pattern "/^X$/" without the D modifier: `$` also
      matches just before a final newline, so the subject matches when X
      spans all of it, or all of it but one trailing "\n". */
  predicate PregMatchAnchored(x: Bytes -> bool, s: Bytes) {
    x(s) || (s != [] && s[|s| - 1] == '\n' && x(s[..|s| - 1]))
  }

  /** On a trimmed subject the newline allowance of `$` never applies. */
  lemma AnchoredOnTrimmed(x: Bytes -> bool, s: Bytes)
    requires IsTrimmed(s)
    ensures PregMatchAnchored(x, s) == x(s)
  {
  }

  /** explode($d, $s): the pieces of s between the occurrences of d, in order. */
  function Explode(d: Byte, s: Bytes): (pieces: seq<Bytes>)
    ensures |pieces| >= 1
    ensures forall k | 0 <= k < |pieces| :: d !in pieces[k]
  {
    if s == [] then [[]]
    else
      var init := Explode(d, s[..|s| - 1]);
      var b := s[|s| - 1];
      if b == d then init + [[]]
      else init[..|init| - 1] + [init[|init| - 1] + [b]]
  }

  /** implode($d, $pieces): the pieces joined with d between them. */
  function Implode(d: Byte, pieces: seq<Bytes>): Bytes
    requires |pieces| >= 1
  {
    if |pieces| == 1 then pieces[0]
    else Implode(d, pieces[..|pieces| - 1]) + [d] + pieces[|pieces| - 1]
  }

  /** Extending the last piece extends the joined string. */
  lemma ImplodeExtendLast(d: Byte, pieces: seq<Bytes>, b: Byte)
    requires |pieces| >= 1
    ensures var n := |pieces|;
      Implode(d, pieces[..n - 1] + [pieces[n - 1] + [b]]) == Implode(d, pieces) + [b]
  {
    var n := |pieces|;
    var ps := pieces[..n - 1] + [pieces[n - 1] + [b]];
    if n > 1 {
      assert ps[..n - 1] == pieces[..n - 1];
      assert Implode(d, ps) == Implode(d, pieces[..n - 1]) + [d] + (pieces[n - 1] + [b]);
    }
  }

  /** Joining the pieces of s gives s back. */
  lemma {:induction false} ImplodeExplode(d: Byte, s: Bytes)
    ensures Implode(d, Explode(d, s)) == s
  {
    if s != [] {
      var s' := s[..|s| - 1];
      var init := Explode(d, s');
      ImplodeExplode(d, s');
      var b := s[|s| - 1];
      assert s == s' + [b];
      if b == d {
        assert (init + [[]])[..|init|] == init;
      } else {
        ImplodeExtendLast(d, init, b);
      }
    }
  }

  /** A string without d is a single piece. */
  lemma {:induction false} ExplodeWithoutDelimiter(d: Byte, s: Bytes)
    requires d !in s
    ensures Explode(d, s) == [s]
  {
    if s != [] {
      var s' := s[..|s| - 1];
      assert d !in s' by { assert forall k | 0 <= k < |s'| :: s'[k] == s[k]; }
      ExplodeWithoutDelimiter(d, s');
      assert s' + [s[|s| - 1]] == s;
    }
  }

  /** A delimiter followed by a d-free tail ends the pieces with that tail. */
  lemma {:induction false} ExplodeLastDelimiter(d: Byte, a: Bytes, tail: Bytes)
    requires d !in tail
    ensures Explode(d, a + [d] + tail) == Explode(d, a) + [tail]
  {
    var s := a + [d] + tail;
    if tail == [] {
      assert s[..|s| - 1] == a;
    } else {
      var tail' := tail[..|tail| - 1];
      assert d !in tail' by { assert forall k | 0 <= k < |tail'| :: tail'[k] == tail[k]; }
      ExplodeLastDelimiter(d, a, tail');
      assert s[..|s| - 1] == a + [d] + tail';
      assert tail' + [tail[|tail| - 1]] == tail;
    }
  }

  /** Splitting joined d-free pieces gives the same pieces back. */
  lemma {:induction false} ExplodeImplode(d: Byte, pieces: seq<Bytes>)
    requires |pieces| >= 1
    requires forall k | 0 <= k < |pieces| :: d !in pieces[k]
    ensures Explode(d, Implode(d, pieces)) == pieces
  {
    if |pieces| == 1 {
      ExplodeWithoutDelimiter(d, pieces[0]);
    } else {
      var init := pieces[..|pieces| - 1];
      ExplodeImplode(d, init);
      ExplodeLastDelimiter(d, Implode(d, init), pieces[|pieces| - 1]);
    }
  }

  predicate HasSuffix(s: Bytes, x: Bytes) {
    |x| <= |s| && s[|s| - |x|..] == x
  }

  /** The last piece of explode() is the text after the last d: a d-free
      suffix of s that is either all of s or preceded by d. */
  lemma {:induction false} LastPieceFollowsLastDelimiter(d: Byte, s: Bytes)
    ensures var ps := Explode(d, s); var p := ps[|ps| - 1];
      HasSuffix(s, p) && d !in p && (|p| < |s| ==> s[|s| - |p| - 1] == d)
  {
    if s != [] {
      var s' := s[..|s| - 1];
      LastPieceFollowsLastDelimiter(d, s');
      var init := Explode(d, s');
      var p' := init[|init| - 1];
      var b := s[|s| - 1];
      if b == d {
        assert Explode(d, s) == init + [[]];
      } else {
        var p := p' + [b];
        assert Explode(d, s) == init[..|init| - 1] + [p];
        assert s[|s| - |p|..] == s'[|s'| - |p'|..] + [b];
        if |p| < |s| {
          assert s[|s| - |p| - 1] == s'[|s'| - |p'| - 1];
        }
      }
    }
  }

  /** The last piece of explode() is a given d-free string x exactly when s
      is x itself or ends with d followed by x. */
  lemma LastPieceIs(d: Byte, s: Bytes, x: Bytes)
    requires d !in x
    ensures var ps := Explode(d, s);
      ps[|ps| - 1] == x <==> s == x || HasSuffix(s, [d] + x)
  {
    var ps := Explode(d, s);
    if ps[|ps| - 1] == x {
      LastPieceIsSuffix(d, s);
    }
    if s == x {
      ExplodeWithoutDelimiter(d, s);
    } else if HasSuffix(s, [d] + x) {
      LastPieceAfterDelimiter(d, s, x);
    }
  }

  /** The last piece is s itself, or follows a d at the end of s. */
  lemma LastPieceIsSuffix(d: Byte, s: Bytes)
    ensures var ps := Explode(d, s); var p := ps[|ps| - 1];
      s == p || HasSuffix(s, [d] + p)
  {
    var ps := Explode(d, s);
    var p := ps[|ps| - 1];
    LastPieceFollowsLastDelimiter(d, s);
    if |p| < |s| {
      assert s[|s| - |p| - 1..] == [d] + s[|s| - |p|..];
    } else {
      assert s == s[|s| - |p|..];
    }
  }

  /** A string ending with d and a d-free x has x as its last piece. */
  lemma LastPieceAfterDelimiter(d: Byte, s: Bytes, x: Bytes)
    requires d !in x && HasSuffix(s, [d] + x)
    ensures var ps := Explode(d, s); ps[|ps| - 1] == x
  {
    var a := s[..|s| - |x| - 1];
    assert s == a + [d] + x by {
      assert s[|s| - |x| - 1..] == [d] + x;
      assert s == s[..|s| - |x| - 1] + s[|s| - |x| - 1..];
    }
    ExplodeLastDelimiter(d, a, x);
  }
}
