/** Values shared by all parts of the model: optional values, bytes, UUIDs
    and the two string helpers of Go's `strings` package that the
    authorisation header parsing relies on. */
module Common {

  datatype Option<+T> = None | Some(value: T)

  /** A value or the error that a Go function returns in its place. */
  datatype Result<+T, +E> = Ok(value: T) | Err(error: E)

  /** An octet, as Go's `byte`. */
  type Byte = x: int | 0 <= x < 256

  /** A 128-bit UUID; `Nil` is the all-zero UUID (`uuid.Nil`). */
  type Uuid = n: nat | n < 0x1_0000_0000_0000_0000_0000_0000_0000_0000

  const Nil: Uuid := 0

  /** Instants and durations, in whole seconds (the granularity of JWT NumericDate). */
  type Time = int

  // ---------------------------------------------------------------------
  // uuid.UUID.String(): 32 lower-case hex digits grouped 8-4-4-4-12.

  function HexDigit(d: nat): (c: char)
    requires d < 16
    ensures '0' <= c <= '9' || 'a' <= c <= 'f'
  {
    if d < 10 then ('0' as int + d) as char else ('a' as int + d - 10) as char
  }

  /** The `k` low-order hex digits of `n`, most significant first. */
  function Hex(n: nat, k: nat): (s: string)
    ensures |s| == k
    ensures forall i :: 0 <= i < k ==> '0' <= s[i] <= '9' || 'a' <= s[i] <= 'f'
    decreases k
  {
    if k == 0 then "" else Hex(n / 16, k - 1) + [HexDigit(n % 16)]
  }

  function UuidString(u: Uuid): (s: string)
    ensures |s| == 36
    ensures s[8] == '-' && s[13] == '-' && s[18] == '-' && s[23] == '-'
  {
    Dashed(Hex(u, 32))
  }

  /** 32 hex digits grouped 8-4-4-4-12 by dashes. */
  function Dashed(h: string): (s: string)
    requires |h| == 32
    ensures |s| == 36
  {
    h[..8] + "-" + h[8..12] + "-" + h[12..16] + "-" + h[16..20] + "-" + h[20..]
  }

  /** Reading hex digits back: the value of one lower-case hex digit, and of
      a string of them, most significant first. */
  function DigitValue(c: char): nat {
    if '0' <= c <= '9' then c as int - '0' as int
    else if 'a' <= c <= 'f' then c as int - 'a' as int + 10
    else 0
  }

  function Pow16(k: nat): (p: nat)
    ensures p >= 1
  {
    if k == 0 then 1 else 16 * Pow16(k - 1)
  }

  function HexValue(s: string): nat {
    if s == [] then 0 else 16 * HexValue(s[..|s| - 1]) + DigitValue(s[|s| - 1])
  }

  /** Hex writes a number that fits in `k` hex digits faithfully: reading
      the digits back gives the number. */
  lemma {:induction false} HexValueOfHex(n: nat, k: nat)
    requires n < Pow16(k)
    ensures HexValue(Hex(n, k)) == n
  {
    if k > 0 {
      var s := Hex(n, k);
      assert s[..|s| - 1] == Hex(n / 16, k - 1);
      assert s[|s| - 1] == HexDigit(n % 16);
      HexValueOfHex(n / 16, k - 1);
    }
  }

  lemma {:induction false} Pow16Add(a: nat, b: nat)
    ensures Pow16(a + b) == Pow16(a) * Pow16(b)
  {
    if a > 0 {
      Pow16Add(a - 1, b);
      assert Pow16(a + b) == 16 * (Pow16(a - 1) * Pow16(b));
    }
  }

  /** The 32 digits of a UUID's string form, with the dashes taken out, are
      the UUID in hex. */
  lemma UuidStringDigits(u: Uuid)
    ensures var s := UuidString(u);
      s[..8] + s[9..13] + s[14..18] + s[19..23] + s[24..] == Hex(u, 32)
  {
    DashedDigits(Hex(u, 32));
  }

  lemma DashedDigits(h: string)
    requires |h| == 32
    ensures var s := Dashed(h);
      s[..8] + s[9..13] + s[14..18] + s[19..23] + s[24..] == h
  {
    var s := Dashed(h);
    assert s[..8] == h[..8];
    assert s[9..13] == h[8..12];
    assert s[14..18] == h[12..16];
    assert s[19..23] == h[16..20];
    assert s[24..] == h[20..];
    assert h == h[..8] + h[8..12] + h[12..16] + h[16..20] + h[20..];
  }

  /** The 32 hex digits of a UUID read back as the UUID itself. */
  lemma UuidHexValue(u: Uuid)
    ensures HexValue(Hex(u, 32)) == u
  {
    assert Pow16(8) == 0x1_0000_0000;
    Pow16Add(8, 8);
    assert Pow16(16) == 0x1_0000_0000_0000_0000;
    Pow16Add(16, 16);
    assert Pow16(32) == 0x1_0000_0000_0000_0000_0000_0000_0000_0000;
    HexValueOfHex(u, 32);
  }

  /** Two UUIDs have the same string form exactly when they are equal. */
  lemma UuidStringInjective(a: Uuid, b: Uuid)
    ensures UuidString(a) == UuidString(b) <==> a == b
  {
    if UuidString(a) == UuidString(b) {
      UuidStringDigits(a);
      UuidStringDigits(b);
      UuidHexValue(a);
      UuidHexValue(b);
    }
  }

  // ---------------------------------------------------------------------
  // strings.HasPrefix, strings.ToLower (ASCII letters), strings.TrimSpace.

  predicate HasPrefix(s: string, prefix: string) {
    |prefix| <= |s| && s[..|prefix|] == prefix
  }

  function LowerChar(c: char): char {
    if 'A' <= c <= 'Z' then (c as int - 'A' as int + 'a' as int) as char else c
  }

  /** Lower-cases the ASCII letters of `s`, character by character. */
  function ToLower(s: string): (r: string)
    ensures |r| == |s|
    ensures forall i :: 0 <= i < |s| ==> r[i] == LowerChar(s[i])
  {
    seq(|s|, i requires 0 <= i < |s| => LowerChar(s[i]))
  }

  /** Go's `unicode.IsSpace`: the ASCII white space characters, U+0085,
      U+00A0 and the Unicode space separators. */
  predicate IsSpace(c: char) {
    var n := c as int;
    (0x09 <= n <= 0x0D) || n == 0x20 || n == 0x85 || n == 0xA0 || n == 0x1680
    || (0x2000 <= n <= 0x200A) || n == 0x2028 || n == 0x2029 || n == 0x202F
    || n == 0x205F || n == 0x3000
  }

  /** Drops the leading white space of `s`: the result is a suffix of `s`,
      everything dropped is white space, and the result does not start with
      white space. */
  function TrimLeft(s: string): (r: string)
    ensures |r| <= |s| && r == s[|s| - |r|..]
    ensures forall k :: 0 <= k < |s| - |r| ==> IsSpace(s[k])
    ensures r != [] ==> !IsSpace(r[0])
  {
    if s != [] && IsSpace(s[0]) then TrimLeft(s[1..]) else s
  }

  /** Drops the trailing white space of `s`, symmetrically to TrimLeft. */
  function TrimRight(s: string): (r: string)
    ensures |r| <= |s| && r == s[..|r|]
    ensures forall k :: |r| <= k < |s| ==> IsSpace(s[k])
    ensures r != [] ==> !IsSpace(r[|r| - 1])
  {
    if s != [] && IsSpace(s[|s| - 1]) then TrimRight(s[..|s| - 1]) else s
  }

  /** strings.TrimSpace: `s` with its leading and trailing white space removed. */
  function TrimSpace(s: string): (r: string)
  {
    TrimRight(TrimLeft(s))
  }

  /** Everything of `s` before `i` and from `j` on is white space. */
  predicate SpaceOutside(s: string, i: nat, j: nat)
    requires i <= j <= |s|
  {
    (forall k :: 0 <= k < i ==> IsSpace(s[k])) && (forall k :: j <= k < |s| ==> IsSpace(s[k]))
  }

  /** What TrimSpace keeps: a slice `s[i..j]` of the input, with nothing but
      white space outside it, neither end of which is white space. */
  lemma TrimSpaceSlice(s: string)
    ensures exists i: nat, j: nat :: i <= j <= |s| && TrimSpace(s) == s[i..j] && SpaceOutside(s, i, j)
    ensures TrimSpace(s) != [] ==> !IsSpace(TrimSpace(s)[0]) && !IsSpace(TrimSpace(s)[|TrimSpace(s)| - 1])
  {
    var l := TrimLeft(s);
    var r := TrimRight(l);
    var i := |s| - |l|;
    SliceOfSuffix(s, l, r, i);
    if r != [] {
      assert r[0] == l[0];
    }
  }

  /** A prefix `r` of the suffix `l == s[i..]` is the slice `s[i..i + |r|]`,
      and the white space after `r` in `l` is the white space of `s` from
      `i + |r|` on. */
  lemma SliceOfSuffix(s: string, l: string, r: string, i: nat)
    requires i <= |s| && l == s[i..] && |r| <= |l| && r == l[..|r|]
    requires forall k :: 0 <= k < i ==> IsSpace(s[k])
    requires forall k :: |r| <= k < |l| ==> IsSpace(l[k])
    ensures i + |r| <= |s| && r == s[i..i + |r|] && SpaceOutside(s, i, i + |r|)
  {
    forall k | i + |r| <= k < |s| ensures IsSpace(s[k]) {
      assert s[k] == l[k - i];
    }
  }

  /** TrimSpace recovers a non-empty string that neither starts nor ends
      with white space from any surrounding of it by white space. */
  lemma {:induction false} TrimSpaceAround(pre: string, t: string, post: string)
    requires forall k :: 0 <= k < |pre| ==> IsSpace(pre[k])
    requires forall k :: 0 <= k < |post| ==> IsSpace(post[k])
    requires t != [] && !IsSpace(t[0]) && !IsSpace(t[|t| - 1])
    ensures TrimSpace(pre + t + post) == t
  {
    TrimLeftSpaces(pre, t + post);
    assert pre + t + post == pre + (t + post);
    TrimRightSpaces(t, post);
  }

  lemma {:induction false} TrimLeftSpaces(pre: string, s: string)
    requires forall k :: 0 <= k < |pre| ==> IsSpace(pre[k])
    requires s != [] ==> !IsSpace(s[0])
    ensures TrimLeft(pre + s) == s
  {
    if pre == [] {
      assert pre + s == s;
    } else {
      assert (pre + s)[1..] == pre[1..] + s;
      TrimLeftSpaces(pre[1..], s);
    }
  }

  lemma {:induction false} TrimRightSpaces(s: string, post: string)
    requires forall k :: 0 <= k < |post| ==> IsSpace(post[k])
    requires s != [] ==> !IsSpace(s[|s| - 1])
    ensures TrimRight(s + post) == s
  {
    if post == [] {
      assert s + post == s;
    } else {
      var n := |post| - 1;
      assert (s + post)[..|s + post| - 1] == s + post[..n];
      TrimRightSpaces(s, post[..n]);
    }
  }
}
