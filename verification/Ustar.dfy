// The ustar archive header: proj-pregame/src/lib/ustar.c, with the octal conversion of format_integer()
// in proj-pregame/src/lib/stdio.c.  Strings are sequences of bytes without the terminating zero.
module Ustar {
  import opened Common

  type Byte = x: int | 0 <= x < 256
  type Bytes = seq<Byte>

  const SIZE: nat := 512
  const CHKSUM: nat := 148

  const DOT: Byte := 46
  const SLASH: Byte := 47

  // A C string: no byte is zero.
  ghost predicate CString(s: Bytes) {
    forall i | 0 <= i < |s| :: s[i] != 0
  }

  // ---- strip_antisocial_prefixes() ----

  predicate StartsWith(s: Bytes, p: Bytes) {
    |p| <= |s| && forall i | 0 <= i < |p| :: s[i] == p[i]
  }

  predicate Antisocial(s: Bytes) {
    StartsWith(s, [SLASH]) || StartsWith(s, [DOT, SLASH]) || StartsWith(s, [DOT, DOT, SLASH])
  }

  // strchr(s, '/') + 1
  function AfterSlash(s: Bytes): (r: Bytes)
    requires Antisocial(s)
    ensures |r| < |s| && s == s[..|s| - |r|] + r
  {
    if s[0] == SLASH then s[1..] else if s[1] == SLASH then s[2..] else s[3..]
  }

  function Suffix(s: Bytes): (r: Bytes)
    ensures |r| <= |s| && r == s[|s| - |r|..] && !Antisocial(r)
    decreases |s|
  {
    hide Antisocial, AfterSlash;
    if Antisocial(s) then Suffix(AfterSlash(s)) else s
  }

  // What a cut may take away: "/", "./" or "../".
  predicate IsPiece(p: Bytes) {
    p == [SLASH] || p == [DOT, SLASH] || p == [DOT, DOT, SLASH]
  }

  function Joined(pieces: seq<Bytes>): Bytes {
    if pieces == [] then [] else pieces[0] + Joined(pieces[1..])
  }

  // The suffix is what is left of the name after such pieces, and no more can be taken.
  lemma {:induction false} SuffixCut(s: Bytes) returns (pieces: seq<Bytes>)
    ensures forall i | 0 <= i < |pieces| :: IsPiece(pieces[i])
    ensures s == Joined(pieces) + Suffix(s) && !Antisocial(Suffix(s))
    decreases |s|
  {
    hide Antisocial, AfterSlash, IsPiece, Suffix, Joined;
    pieces := [];
    SuffixStep(s);
    if Antisocial(s) {
      var rest := AfterSlash(s);
      var p := s[..|s| - |rest|];
      var more := SuffixCut(rest);
      FirstPiece(s);
      pieces := [p] + more;
      JoinedFirst(p, more, Suffix(rest));
    } else {
      JoinedNone(s);
    }
  }

  lemma SuffixStep(s: Bytes)
    ensures Suffix(s) == if Antisocial(s) then Suffix(AfterSlash(s)) else s
  {
    hide Antisocial, AfterSlash;
  }

  lemma JoinedNone(s: Bytes)
    ensures s == Joined([]) + s
  {}

  lemma JoinedFirst(p: Bytes, more: seq<Bytes>, rest: Bytes)
    ensures Joined([p] + more) + rest == p + (Joined(more) + rest)
  {
    assert ([p] + more)[1..] == more;
  }

  lemma FirstPiece(s: Bytes)
    requires Antisocial(s)
    ensures IsPiece(s[..|s| - |AfterSlash(s)|])
  {
    if s[0] == SLASH {
      assert s[..1] == [SLASH];
    } else if s[1] == SLASH {
      assert s[..2] == [DOT, SLASH];
    } else {
      assert s[..3] == [DOT, DOT, SLASH];
    }
  }

  // Whatever such cut leaves a name that cannot be cut further leaves the suffix.
  lemma {:induction false} SuffixUnique(s: Bytes, pieces: seq<Bytes>, rest: Bytes)
    requires s == Joined(pieces) + rest && !Antisocial(rest)
    requires forall i | 0 <= i < |pieces| :: IsPiece(pieces[i])
    ensures rest == Suffix(s)
    decreases |pieces|
  {
    if pieces == [] {
      assert s == rest;
    } else {
      var p, more := pieces[0], pieces[1..];
      assert s == p + (Joined(more) + rest);
      PieceIsCut(s, p, Joined(more) + rest);
      SuffixUnique(AfterSlash(s), more, rest);
    }
  }

  lemma PieceIsCut(s: Bytes, p: Bytes, rest: Bytes)
    requires s == p + rest && IsPiece(p)
    ensures Antisocial(s) && AfterSlash(s) == rest
  {
    assert s[..|p|] == p && s[|p|..] == rest;
    assert forall i | 0 <= i < |p| :: s[i] == p[i];
    if p == [SLASH] {
      assert StartsWith(s, [SLASH]);
    } else if p == [DOT, SLASH] {
      assert StartsWith(s, [DOT, SLASH]);
    } else {
      assert StartsWith(s, [DOT, DOT, SLASH]);
    }
  }

  function Strip(s: Bytes): Bytes {
    var r := Suffix(s);
    if r == [] || r == [DOT, DOT] then [DOT] else r
  }

  // A name that stays below the directory it is extracted to, as far as its first component goes.
  ghost predicate Harmless(s: Bytes) {
    s != [] && !Antisocial(s) && s != [DOT, DOT]
  }

  lemma {:induction false} StripHarmless(s: Bytes)
    ensures Harmless(Strip(s))
    ensures CString(s) ==> CString(Strip(s))
  {
    hide Suffix;
    var r := Suffix(s);
    assert forall i | 0 <= i < |r| :: r[i] == s[|s| - |r| + i];
    assert [DOT][0] != [SLASH][0];
  }

  // Stripping changes a name exactly when it is not harmless; so it is idempotent.
  lemma {:induction false} StripFixed(s: Bytes)
    ensures Strip(s) == s <==> Harmless(s)
    ensures Strip(Strip(s)) == Strip(s)
  {
    StripHarmless(s);
    StripHarmless(Strip(s));
  }

  method StripAntisocialPrefixes(name: Bytes) returns (r: Bytes)
    ensures r == Strip(name)
  {
    r := name;
    while Antisocial(r)
      invariant Suffix(r) == Suffix(name)
      decreases |r|
    {
      r := AfterSlash(r);
    }
    if r == [] || r == [DOT, DOT] {
      r := [DOT];
    }
  }

  // ---- Octal fields ----

  function Digit(d: nat): Byte
    requires d < 8
  {
    48 + d
  }

  // The octal digits of n, most significant first; none for 0.
  function Digits(n: nat): Bytes {
    if n == 0 then [] else Digits(n / 8) + [Digit(n % 8)]
  }

  function Zeros(n: nat): (z: Bytes)
    ensures |z| == n
  {
    seq(n, _ => 48)
  }

  // What "%0wo" prints.
  function Octal(n: nat, w: nat): Bytes {
    var d := if n == 0 then [Digit(0)] else Digits(n);
    if |d| < w then Zeros(w - |d|) + d else d
  }

  // The first loop of format_integer(): digits in reverse order.
  method DigitBuffer(n: nat) returns (buf: Bytes)
    ensures Reversed(buf) == Digits(n)
  {
    hide Digits;
    DigitsNone();
    var value := n;
    buf := [];
    assert Digits(n) + [] == Digits(n);
    while value > 0
      invariant Digits(value) + Reversed(buf) == Digits(n)
    {
      DigitsTurn(value, buf);
      buf := buf + [Digit(value % 8)];
      value := value / 8;
    }
    assert [] + Reversed(buf) == Reversed(buf);
  }

  // Its output: pad characters, then the buffer from its end to its start.
  method Output(pad: nat, buf: Bytes) returns (r: Bytes)
    ensures r == Zeros(pad) + Reversed(buf)
  {
    r := Zeros(pad);
    var i := |buf|;
    assert buf[..i] == buf;
    while i > 0
      invariant 0 <= i <= |buf| && r + Reversed(buf[..i]) == Zeros(pad) + Reversed(buf)
    {
      OutputTurn(r, buf, i);
      i := i - 1;
      r := r + [buf[i]];
    }
    assert buf[..0] == [] && r + [] == r;
  }

  lemma {:induction false} OutputTurn(r: Bytes, buf: Bytes, i: nat)
    requires 0 < i <= |buf|
    ensures r + Reversed(buf[..i]) == r + [buf[i - 1]] + Reversed(buf[..i - 1])
  {
    assert buf[..i][..i - 1] == buf[..i - 1];
    assert r + ([buf[i - 1]] + Reversed(buf[..i - 1])) == r + [buf[i - 1]] + Reversed(buf[..i - 1]);
  }

  // format_integer() for an unsigned octal conversion with a field width and the 0 flag.
  method FormatOctal(n: nat, w: nat) returns (r: Bytes)
    ensures r == Octal(n, w)
  {
    hide Digits;
    DigitsNone();
    var buf := DigitBuffer(n);
    ReversedLength(buf);
    DigitsSome(n);
    if |buf| < 1 {
      buf := [48];
      assert Reversed([48]) == [48] by { assert [48][..0] == []; assert Reversed([]) == []; assert [48] + [] == [48]; }
    }
    var pad := w - |buf|;
    if pad < 0 {
      pad := 0;
    }
    r := Output(pad, buf);
    assert Zeros(0) + Reversed(buf) == Reversed(buf);
  }

  lemma DigitsNone()
    ensures Digits(0) == [] && Reversed([]) == []
  {}

  lemma DigitsSome(n: nat)
    ensures n > 0 <==> |Digits(n)| > 0
  {}

  function Reversed(s: Bytes): (r: Bytes) {
    if s == [] then [] else [s[|s| - 1]] + Reversed(s[..|s| - 1])
  }

  lemma {:induction false} ReversedLength(s: Bytes)
    ensures |Reversed(s)| == |s|
  {
    if s != [] { ReversedLength(s[..|s| - 1]); }
  }

  lemma {:induction false} DigitsTurn(value: nat, buf: Bytes)
    requires value > 0
    ensures Digits(value) + Reversed(buf) == Digits(value / 8) + Reversed(buf + [Digit(value % 8)])
  {
    var d := Digit(value % 8);
    assert (buf + [d])[..|buf|] == buf;
    assert Digits(value / 8) + [d] + Reversed(buf) == Digits(value / 8) + ([d] + Reversed(buf));
  }

  // parse_octal_field() from place `ofs` on; unsigned long has 32 bits.
  function ParseFrom(s: Bytes, ofs: nat, value: nat): Option<nat>
    requires ofs <= |s|
    decreases |s| - ofs
  {
    if ofs == |s| then None
    else if 48 <= s[ofs] <= 55 then
      if value > 0x1fff_ffff then None else ParseFrom(s, ofs + 1, s[ofs] - 48 + value * 8)
    else if s[ofs] == 32 || s[ofs] == 0 then (if ofs > 0 then Some(value) else None)
    else None
  }

  method ParseOctalField(s: Bytes) returns (value: nat, ok: bool)
    ensures ok == ParseFrom(s, 0, 0).Some?
    ensures ok ==> value == ParseFrom(s, 0, 0).value
  {
    value, ok := 0, false;
    var ofs := 0;
    while ofs < |s|
      invariant ofs <= |s| && ParseFrom(s, 0, 0) == ParseFrom(s, ofs, value)
    {
      var c := s[ofs];
      if 48 <= c <= 55 {
        if value > 0x1fff_ffff {
          return;
        }
        value := c - 48 + value * 8;
      } else if c == 32 || c == 0 {
        ok := ofs > 0;
        return;
      } else {
        return;
      }
      ofs := ofs + 1;
    }
  }

  predicate IsOctal(c: Byte) { 48 <= c <= 55 }

  // The end of the digits from place i on.
  function DigitEnd(s: Bytes, i: nat): (e: nat)
    requires i <= |s|
    ensures i <= e <= |s| && (e < |s| ==> !IsOctal(s[e])) && forall k | i <= k < e :: IsOctal(s[k])
    decreases |s| - i
  {
    if i < |s| && IsOctal(s[i]) then DigitEnd(s, i + 1) else i
  }

  // The number that the first k characters write in octal.
  function Value(s: Bytes, k: nat): nat
    requires k <= |s| && forall i | 0 <= i < k :: IsOctal(s[i])
  {
    if k == 0 then 0 else assert IsOctal(s[k - 1]); 8 * Value(s, k - 1) + s[k - 1] - 48
  }

  lemma {:induction false} ValueGrows(s: Bytes, j: nat, k: nat)
    requires j <= k <= |s| && forall i | 0 <= i < k :: IsOctal(s[i])
    ensures Value(s, j) <= Value(s, k)
    decreases k
  {
    if j < k { ValueGrows(s, j, k - 1); }
  }

  // What the field from place `ofs` on says, the digits before it having been read.
  lemma {:induction false} ParsedFrom(s: Bytes, ofs: nat)
    requires ofs <= |s| && (forall i | 0 <= i < ofs :: IsOctal(s[i])) && Value(s, ofs) < 0x1_0000_0000
    ensures var e := DigitEnd(s, ofs);
            ParseFrom(s, ofs, Value(s, ofs))
            == if 0 < e < |s| && (s[e] == 32 || s[e] == 0) && Value(s, e) < 0x1_0000_0000 then Some(Value(s, e)) else None
    decreases |s| - ofs
  {
    if ofs < |s| && IsOctal(s[ofs]) {
      var next := Value(s, ofs + 1);
      if Value(s, ofs) <= 0x1fff_ffff {
        ParsedFrom(s, ofs + 1);
      } else {
        ValueGrows(s, ofs + 1, DigitEnd(s, ofs));
      }
    }
  }

  // A field is accepted exactly if it begins with octal digits, ended by a space or a zero, that write a number of
  // 32 bits; and that number is its value.
  lemma ParseMeans(s: Bytes)
    ensures var e := DigitEnd(s, 0);
            ParseFrom(s, 0, 0)
            == if 0 < e < |s| && (s[e] == 32 || s[e] == 0) && Value(s, e) < 0x1_0000_0000 then Some(Value(s, e)) else None
  {
    hide ParseFrom, DigitEnd;
    ParsedFrom(s, 0);
  }

  // Digits, with whatever comes before them, parse to the number they are printed from.
  lemma {:induction false} ParseDigits(s: Bytes, ofs: nat, n: nat)
    requires n < 0x1_0000_0000 && ofs + |Digits(n)| <= |s|
    requires s[ofs..ofs + |Digits(n)|] == Digits(n)
    ensures ParseFrom(s, ofs, 0) == ParseFrom(s, ofs + |Digits(n)|, n)
  {
    if n > 0 {
      var d := Digits(n / 8);
      assert Digits(n) == d + [Digit(n % 8)];
      assert s[ofs..ofs + |d|] == s[ofs..ofs + |Digits(n)|][..|d|] == d;
      ParseDigits(s, ofs, n / 8);
      assert s[ofs + |d|] == s[ofs..ofs + |Digits(n)|][|d|] == Digit(n % 8);
      var value, c := n / 8, s[ofs + |d|];
      assert 48 <= c <= 55 && value <= 0x1fff_ffff;
      assert c - 48 + value * 8 == n;
    }
  }

  lemma {:induction false} ParseZeros(s: Bytes, ofs: nat, k: nat)
    requires ofs + k <= |s| && forall i | ofs <= i < ofs + k :: s[i] == 48
    ensures ParseFrom(s, ofs, 0) == ParseFrom(s, ofs + k, 0)
    decreases k
  {
    if k > 0 { ParseZeros(s, ofs + 1, k - 1); }
  }

  lemma ParseEnds(s: Bytes, ofs: nat, value: nat)
    requires 0 < ofs < |s| && s[ofs] == 0
    ensures ParseFrom(s, ofs, value) == Some(value)
  {}

  // Printing and parsing an octal field are inverse.
  lemma OctalRoundTrip(n: nat, w: nat)
    requires n < 0x1_0000_0000 && w > 0
    ensures ParseFrom(Octal(n, w) + [0], 0, 0) == Some(n)
  {
    hide ParseFrom, Digits;
    var s := Octal(n, w) + [0];
    DigitsSome(n);
    var d := if n == 0 then [] else Digits(n);
    var k: nat := |s| - 1 - |d|;
    assert forall i | 0 <= i < k :: s[i] == 48;
    ParseZeros(s, 0, k);
    if n > 0 {
      assert s[k..k + |d|] == d;
      ParseDigits(s, k, n);
    }
    ParseEnds(s, |s| - 1, n);
  }

  // How wide a number can get: below 8^w, at most w digits.
  lemma {:induction false} DigitsWidth(n: nat, w: nat, bound: nat)
    requires n < bound && (w == 0 ==> bound <= 1) && (w > 0 ==> bound <= 8 * Pow8(w - 1))
    ensures |Digits(n)| <= w
  {
    if n > 0 {
      DigitsWidth(n / 8, w - 1, Pow8(w - 1));
    }
  }

  function Pow8(w: nat): (p: nat)
    ensures p > 0
  {
    if w == 0 then 1 else 8 * Pow8(w - 1)
  }

  lemma OctalWidths(n: nat)
    ensures n < 0x1_0000_0000 ==> |Octal(n, 11)| == 11
    ensures n < 0x20_0000 ==> |Octal(n, 7)| == 7
  {
    assert Pow8(0) == 1 && Pow8(1) == 8 && Pow8(2) == 64 && Pow8(3) == 512 && Pow8(4) == 0x1000;
    assert Pow8(5) == 0x8000 && Pow8(6) == 0x4_0000 && Pow8(7) == 0x20_0000 && Pow8(8) == 0x100_0000;
    assert Pow8(9) == 0x800_0000 && Pow8(10) == 0x4000_0000;
    if n < 0x1_0000_0000 { DigitsWidth(n, 11, 0x1_0000_0000); }
    if n < 0x20_0000 { DigitsWidth(n, 7, 0x20_0000); }
  }

  // ---- The header ----

  const REGULAR: Byte := 48          // '0'
  const DIRECTORY: Byte := 53        // '5'

  const MAGIC: Bytes := [117, 115, 116, 97, 114]     // "ustar"
  const ROOT: Bytes := [114, 111, 111, 116]          // "root"

  datatype Field = Field(at: nat, bytes: Bytes)

  ghost predicate Inside(f: Field) { f.at + |f.bytes| <= 512 }

  ghost predicate AllInside(fields: seq<Field>) {
    forall i | 0 <= i < |fields| :: Inside(fields[i])
  }

  // Writing bytes into a header.
  function Put(h: Bytes, f: Field): (r: Bytes)
    requires |h| == 512 && f.at + |f.bytes| <= 512
    ensures |r| == 512
  {
    h[..f.at] + f.bytes + h[f.at + |f.bytes|..]
  }

  lemma PutAt(h: Bytes, f: Field, i: nat)
    requires |h| == 512 && f.at + |f.bytes| <= 512 && i < 512
    ensures Put(h, f)[i] == if f.at <= i < f.at + |f.bytes| then f.bytes[i - f.at] else h[i]
  {}

  lemma PutSame(h: Bytes, f: Field)
    requires |h| == 512 && f.at + |f.bytes| <= 512
    ensures Put(h, f)[f.at..f.at + |f.bytes|] == f.bytes
  {}

  lemma PutOther(h: Bytes, f: Field, a: nat, b: nat)
    requires |h| == 512 && f.at + |f.bytes| <= 512 && a <= b <= 512 && (b <= f.at || f.at + |f.bytes| <= a)
    ensures Put(h, f)[a..b] == h[a..b]
  {
    forall i | a <= i < b ensures Put(h, f)[i] == h[i] { PutAt(h, f, i); }
  }

  function PutAll(h: Bytes, fields: seq<Field>, n: nat): (r: Bytes)
    requires |h| == 512 && n <= |fields| && AllInside(fields)
    ensures |r| == 512
  {
    if n == 0 then h else Put(PutAll(h, fields, n - 1), fields[n - 1])
  }

  ghost predicate Apart(f: Field, g: Field) {
    f.at + |f.bytes| <= g.at || g.at + |g.bytes| <= f.at
  }

  // A field that no later one overlaps keeps its bytes, and a byte outside all fields keeps its value.
  lemma {:induction false} PutAllKeeps(h: Bytes, fields: seq<Field>, n: nat, k: nat, i: nat)
    requires |h| == 512 && k < n <= |fields| && AllInside(fields)
    requires forall j | k < j < n :: Apart(fields[k], fields[j])
    requires fields[k].at <= i < fields[k].at + |fields[k].bytes|
    ensures PutAll(h, fields, n)[i] == fields[k].bytes[i - fields[k].at]
    decreases n
  {
    hide Put;
    PutAt(PutAll(h, fields, n - 1), fields[n - 1], i);
    if k < n - 1 {
      PutAllKeeps(h, fields, n - 1, k, i);
      assert Apart(fields[k], fields[n - 1]);
    }
  }

  lemma {:induction false} PutAllLeaves(h: Bytes, fields: seq<Field>, n: nat, i: nat)
    requires |h| == 512 && n <= |fields| && AllInside(fields)
    requires i < 512 && forall j | 0 <= j < n :: !(fields[j].at <= i < fields[j].at + |fields[j].bytes|)
    ensures PutAll(h, fields, n)[i] == h[i]
  {
    hide Put;
    if n > 0 {
      PutAt(PutAll(h, fields, n - 1), fields[n - 1], i);
      PutAllLeaves(h, fields, n - 1, i);
    }
  }

  // calculate_chksum() over the first n bytes.
  function Sum(h: Bytes, n: nat): (s: nat)
    requires n <= |h|
    ensures s <= 255 * n
  {
    if n == 0 then 0 else Sum(h, n - 1) + if 148 <= n - 1 < 156 then 32 else h[n - 1]
  }

  method CalculateChksum(h: Bytes) returns (c: nat)
    requires |h| == 512
    ensures c == Sum(h, 512)
  {
    c := 0;
    var i := 0;
    while i < 512
      invariant 0 <= i <= 512 && c == Sum(h, i)
    {
      c := c + if 148 <= i < 156 then 32 else h[i];
      i := i + 1;
    }
  }

  // The checksum does not depend on the checksum field.
  lemma {:induction false} SumIgnoresField(h: Bytes, g: Bytes, n: nat)
    requires n <= |h| && n <= |g| && forall i | 0 <= i < n && !(148 <= i < 156) :: h[i] == g[i]
    ensures Sum(h, n) == Sum(g, n)
  {
    if n > 0 { SumIgnoresField(h, g, n - 1); }
  }

  function Unsigned(size: int): nat
    requires -0x8000_0000 <= size <= 0x7fff_ffff
  {
    if size < 0 then size + 0x1_0000_0000 else size
  }

  // The fields in the order in which they are filled in, without the checksum.
  function Fields(name: Bytes, kind: Byte, size: int): (f: seq<Field>)
    requires -0x8000_0000 <= size <= 0x7fff_ffff
    ensures |f| == 11
  {
    [Field(0, name + [0]),
     Field(100, Octal(if kind == REGULAR then 0x1a4 else 0x1ed, 7) + [0]),      // 0644, 0755
     Field(108, Zeros(7) + [0]),
     Field(116, Zeros(7) + [0]),
     Field(124, Octal(Unsigned(size), 11) + [0]),
     Field(136, Octal(1136102400, 11) + [0]),
     Field(156, [kind]),
     Field(257, MAGIC + [0]),
     Field(263, [48, 48]),
     Field(297, ROOT + [0]),
     Field(265, ROOT + [0])]
  }

  // The header after memset().
  function Blank(): (h: Bytes)
    ensures |h| == 512 && forall i | 0 <= i < 512 :: h[i] == 0
  {
    seq(512, _ => 0)
  }

  // Where the fields are, and how much room they have.
  function Start(k: nat): nat {
    if k == 0 then 0 else if k == 1 then 100 else if k == 2 then 108 else if k == 3 then 116 else if k == 4 then 124
    else if k == 5 then 136 else if k == 6 then 156 else if k == 7 then 257 else if k == 8 then 263
    else if k == 9 then 297 else 265
  }

  function Room(k: nat): nat {
    if k == 0 then 100 else if k <= 3 then 8 else if k <= 5 then 12 else if k == 6 then 1 else if k == 7 then 6
    else if k == 8 then 2 else 5
  }

  lemma FieldSlot(name: Bytes, kind: Byte, size: int, k: nat)
    requires -0x8000_0000 <= size <= 0x7fff_ffff && |name| <= 99 && k < 11
    ensures var f := Fields(name, kind, size)[k];
            f.at == Start(k) && |f.bytes| <= Room(k) && (k > 0 ==> |f.bytes| == Room(k))
  {
    OctalWidths(if kind == REGULAR then 0x1a4 else 0x1ed);
    OctalWidths(Unsigned(size));
    OctalWidths(1136102400);
    hide Octal, Zeros;
    if k == 0 {} else if k == 1 {} else if k == 2 {} else if k == 3 {} else if k == 4 {} else if k == 5 {}
    else if k == 6 {} else if k == 7 {} else if k == 8 {} else if k == 9 {} else {}
  }

  lemma SlotsApart(k: nat, j: nat)
    requires k < 11 && j < 11 && k != j
    ensures Start(k) + Room(k) <= Start(j) || Start(j) + Room(j) <= Start(k)
    ensures Start(k) + Room(k) <= 512
  {}

  lemma FieldsInside(name: Bytes, kind: Byte, size: int)
    requires -0x8000_0000 <= size <= 0x7fff_ffff && |name| <= 99
    ensures AllInside(Fields(name, kind, size))
  {
    hide Fields;
    forall k | 0 <= k < 11 ensures Inside(Fields(name, kind, size)[k]) {
      FieldSlot(name, kind, size, k);
      SlotsApart(k, if k == 0 then 1 else 0);
    }
  }

  function Unsummed(name: Bytes, kind: Byte, size: int): (h: Bytes)
    requires -0x8000_0000 <= size <= 0x7fff_ffff && |name| <= 99
    ensures |h| == 512
  {
    FieldsInside(name, kind, size);
    PutAll(Blank(), Fields(name, kind, size), 11)
  }

  function ChksumField(c: nat): Field {
    Field(148, Octal(c, 7) + [0])
  }

  // The header that ustar_make_header() composes; None if the stripped name is too long.
  function Make(name: Bytes, kind: Byte, size: int): Option<Bytes>
    requires -0x8000_0000 <= size <= 0x7fff_ffff
  {
    var n := Strip(name);
    if |n| > 99 then None
    else
      var h := Unsummed(n, kind, size);
      OctalWidths(Sum(h, 512));
      Some(Put(h, ChksumField(Sum(h, 512))))
  }

  // ---- ustar_make_header() ----

  // memcpy() of a field into the header.
  method WriteField(header: array<Byte>, f: Field)
    requires header.Length == 512 && Inside(f)
    modifies header
    ensures header[..] == Put(old(header[..]), f)
  {
    forall i | 0 <= i < |f.bytes| {
      header[f.at + i] := f.bytes[i];
    }
  }

  method MakeHeader(name: Bytes, kind: Byte, size: int, header: array<Byte>) returns (ok: bool)
    requires header.Length == 512 && -0x8000_0000 <= size <= 0x7fff_ffff && (kind == REGULAR || kind == DIRECTORY)
    modifies header
    ensures ok <==> |Strip(name)| <= 99
    ensures if ok then Make(name, kind, size) == Some(header[..]) else Make(name, kind, size).None? && header[..] == old(header[..])
  {
    hide Put, Sum, Octal, Strip;
    var n := StripAntisocialPrefixes(name);
    if |n| > 99 {
      return false;
    }
    FieldsInside(n, kind, size);
    forall i | 0 <= i < 512 {
      header[i] := 0;
    }
    assert header[..] == Blank();
    ghost var all := Fields(n, kind, size);
    assert AllInside(all);
    var mode := FormatOctal(if kind == REGULAR then 0x1a4 else 0x1ed, 7);
    var bytes := FormatOctal(Unsigned(size), 11);
    var mtime := FormatOctal(1136102400, 11);
    var fields := [Field(0, n + [0]), Field(100, mode + [0]), Field(108, Zeros(7) + [0]), Field(116, Zeros(7) + [0]),
                   Field(124, bytes + [0]), Field(136, mtime + [0]), Field(156, [kind]), Field(257, MAGIC + [0]),
                   Field(263, [48, 48]), Field(297, ROOT + [0]), Field(265, ROOT + [0])];
    assert fields == all;
    hide Fields, AllInside;
    WriteFields(header, fields);
    var c := CalculateChksum(header[..]);
    OctalWidths(c);
    var sum := FormatOctal(c, 7);
    WriteField(header, Field(148, sum + [0]));
    return true;
  }

  method WriteFields(header: array<Byte>, fields: seq<Field>)
    requires header.Length == 512 && AllInside(fields)
    modifies header
    ensures header[..] == PutAll(old(header[..]), fields, |fields|)
  {
    hide Put;
    var i := 0;
    while i < |fields|
      invariant 0 <= i <= |fields| && header[..] == PutAll(old(header[..]), fields, i)
    {
      assert Inside(fields[i]);
      WriteField(header, fields[i]);
      i := i + 1;
    }
  }

  // ---- ustar_parse_header() ----

  datatype Parsed =
    | EndOfArchive
    | Entry(name: Bytes, kind: Byte, size: nat)
    | NotUstar | BadVersion | CorruptChksum | ChksumMismatch | NameTooLong | BadType | CorruptSize | TooLarge

  // The C string that begins a field.
  function CStr(s: Bytes): Bytes {
    if s == [] || s[0] == 0 then [] else [s[0]] + CStr(s[1..])
  }

  predicate AllZeros(s: Bytes) {
    forall i | 0 <= i < |s| :: s[i] == 0
  }

  // memcmp(h->magic, "ustar", 6) == 0
  predicate HasMagic(h: Bytes)
    requires |h| == 512
  {
    h[257] == 117 && h[258] == 115 && h[259] == 116 && h[260] == 97 && h[261] == 114 && h[262] == 0
  }

  function Parse(h: Bytes): Parsed
    requires |h| == 512
  {
    if AllZeros(h) then EndOfArchive
    else if !HasMagic(h) then NotUstar
    else if h[263] != 48 || h[264] != 48 then BadVersion
    else
      var chksum := ParseFrom(h[148..156], 0, 0);
      if chksum.None? then CorruptChksum
      else if chksum.value != Sum(h, 512) then ChksumMismatch
      else if h[99] != 0 || h[345] != 0 then NameTooLong
      else if h[156] != REGULAR && h[156] != DIRECTORY then BadType
      else if h[156] == REGULAR then
        var size := ParseFrom(h[124..136], 0, 0);
        if size.None? then CorruptSize
        else if size.value > 0x7fff_ffff then TooLarge
        else Entry(Strip(CStr(h[..100])), REGULAR, size.value)
      else Entry(Strip(CStr(h[..100])), DIRECTORY, 0)
  }

  method ParseHeader(h: Bytes) returns (r: Parsed)
    requires |h| == 512
    ensures r == Parse(h)
  {
    hide ParseFrom, Sum, Strip, CStr;
    var zeros := IsAllZeros(h);
    if zeros {
      return EndOfArchive;
    }
    if !HasMagic(h) {
      return NotUstar;
    } else if h[263] != 48 || h[264] != 48 {
      return BadVersion;
    }
    var chksum, ok := ParseOctalField(h[148..156]);
    if !ok {
      return CorruptChksum;
    }
    var sum := CalculateChksum(h);
    if chksum != sum {
      return ChksumMismatch;
    } else if h[99] != 0 || h[345] != 0 {
      return NameTooLong;
    } else if h[156] != REGULAR && h[156] != DIRECTORY {
      return BadType;
    }
    var size := 0;
    if h[156] == REGULAR {
      size, ok := ParseOctalField(h[124..136]);
      if !ok {
        return CorruptSize;
      } else if size > 0x7fff_ffff {
        return TooLarge;
      }
    }
    var name := StripAntisocialPrefixes(CStr(h[..100]));
    return Entry(name, h[156], size);
  }

  method IsAllZeros(s: Bytes) returns (r: bool)
    ensures r == AllZeros(s)
  {
    var i := 0;
    while i < |s|
      invariant 0 <= i <= |s| && forall k | 0 <= k < i :: s[k] == 0
    {
      if s[i] != 0 {
        return false;
      }
      i := i + 1;
    }
    return true;
  }

  // ---- Round trip ----

  lemma {:induction false} CStrOf(s: Bytes, name: Bytes)
    requires CString(name) && |name| < |s| && s[|name|] == 0 && forall i | 0 <= i < |name| :: s[i] == name[i]
    ensures CStr(s) == name
  {
    if name != [] {
      CStrOf(s[1..], name[1..]);
      assert name == [name[0]] + name[1..];
    }
  }

  lemma FieldsApart(name: Bytes, kind: Byte, size: int, k: nat, j: nat)
    requires -0x8000_0000 <= size <= 0x7fff_ffff && |name| <= 99 && k < j < 11
    ensures Apart(Fields(name, kind, size)[k], Fields(name, kind, size)[j])
  {
    hide Fields, Start, Room;
    FieldSlot(name, kind, size, k);
    FieldSlot(name, kind, size, j);
    SlotsApart(k, j);
  }

  // Byte i of the header, in field k.
  lemma InField(name: Bytes, kind: Byte, size: int, k: nat, i: nat)
    requires -0x8000_0000 <= size <= 0x7fff_ffff && |name| <= 99 && k < 11
    requires var f := Fields(name, kind, size)[k]; f.at <= i < f.at + |f.bytes|
    ensures var f := Fields(name, kind, size)[k]; i < 512 && Unsummed(name, kind, size)[i] == f.bytes[i - f.at]
  {
    hide Fields, PutAll;
    FieldsInside(name, kind, size);
    forall j: nat | k < j < 11 ensures Apart(Fields(name, kind, size)[k], Fields(name, kind, size)[j]) {
      FieldsApart(name, kind, size, k, j);
    }
    assert Inside(Fields(name, kind, size)[k]);
    PutAllKeeps(Blank(), Fields(name, kind, size), 11, k, i);
  }

  lemma OutsideSlots(i: nat, j: nat)
    requires j < 11 && (i == 345 || i < 100)
    ensures Start(0) == 0
    ensures i == 345 || j > 0 ==> !(Start(j) <= i < Start(j) + Room(j))
  {}

  // The prefix and the end of the name are left blank.
  lemma LeftBlank(name: Bytes, kind: Byte, size: int, i: nat)
    requires -0x8000_0000 <= size <= 0x7fff_ffff && |name| <= 99 && (i == 345 || |name| < i < 100)
    ensures Unsummed(name, kind, size)[i] == 0
  {
    FieldsInside(name, kind, size);
    var f := Fields(name, kind, size);
    assert f[0].bytes == name + [0];
    hide Fields, PutAll;
    hide Start, Room;
    forall j: nat | j < 11 ensures !(f[j].at <= i < f[j].at + |f[j].bytes|) {
      FieldSlot(name, kind, size, j);
      OutsideSlots(i, j);
    }
    PutAllLeaves(Blank(), f, 11, i);
  }

  ghost predicate Layout(h: Bytes, name: Bytes, kind: Byte, size: int, c: nat)
    requires -0x8000_0000 <= size <= 0x7fff_ffff
  {
    && |h| == 512
    && (forall i | 0 <= i < |name| < 100 :: h[i] == name[i]) && |name| < 100 && h[|name|] == 0 && h[99] == 0 && h[345] == 0
    && h[124..136] == Octal(Unsigned(size), 11) + [0]
    && h[148..156] == Octal(c, 7) + [0]
    && h[156] == kind && HasMagic(h) && h[263] == 48 && h[264] == 48
  }

  lemma UnsummedName(name: Bytes, kind: Byte, size: int)
    requires -0x8000_0000 <= size <= 0x7fff_ffff && |name| <= 99
    ensures var h := Unsummed(name, kind, size);
            (forall i | 0 <= i < |name| :: h[i] == name[i]) && h[|name|] == 0 && h[99] == 0 && h[345] == 0
  {
    hide Octal, Zeros, Unsummed;
    forall i: nat | i <= |name| ensures Unsummed(name, kind, size)[i] == (name + [0])[i] {
      InField(name, kind, size, 0, i);
    }
    LeftBlank(name, kind, size, 345);
    if |name| < 99 { LeftBlank(name, kind, size, 99); }
  }

  lemma UnsummedSize(name: Bytes, kind: Byte, size: int)
    requires -0x8000_0000 <= size <= 0x7fff_ffff && |name| <= 99
    ensures Unsummed(name, kind, size)[124..136] == Octal(Unsigned(size), 11) + [0]
  {
    hide Octal, Zeros, Unsummed;
    FieldBytes(name, kind, size, 4);
  }

  lemma UnsummedMagic(name: Bytes, kind: Byte, size: int)
    requires -0x8000_0000 <= size <= 0x7fff_ffff && |name| <= 99
    ensures var h := Unsummed(name, kind, size);
            h[156] == kind && HasMagic(h) && h[263] == 48 && h[264] == 48
  {
    hide Octal, Zeros, Unsummed;
    InField(name, kind, size, 6, 156);
    InField(name, kind, size, 7, 257);
    InField(name, kind, size, 7, 258);
    InField(name, kind, size, 7, 259);
    InField(name, kind, size, 7, 260);
    InField(name, kind, size, 7, 261);
    InField(name, kind, size, 7, 262);
    InField(name, kind, size, 8, 263);
    InField(name, kind, size, 8, 264);
  }

  // What the composed header holds, and that its checksum is its own.
  lemma MadeLayout(name: Bytes, kind: Byte, size: int)
    requires -0x8000_0000 <= size <= 0x7fff_ffff && |Strip(name)| <= 99
    ensures var h := Make(name, kind, size);
            && h.Some? && Layout(h.value, Strip(name), kind, size, Sum(h.value, 512))
            && Sum(h.value, 512) < 0x20_0000
  {
    hide Octal, Unsummed, Sum, Strip, Put, Layout;
    var n := Strip(name);
    var u := Unsummed(n, kind, size);
    OctalWidths(Sum(u, 512));
    UnsummedName(n, kind, size);
    UnsummedSize(n, kind, size);
    UnsummedMagic(n, kind, size);
    LayoutPut(u, n, kind, size, Sum(u, 512));
  }

  // Filling in the checksum completes the layout and does not change the checksum.
  lemma LayoutPut(u: Bytes, n: Bytes, kind: Byte, size: int, c: nat)
    requires -0x8000_0000 <= size <= 0x7fff_ffff && |n| <= 99 && |u| == 512 && |Octal(c, 7)| == 7
    requires (forall i | 0 <= i < |n| :: u[i] == n[i]) && u[|n|] == 0 && u[99] == 0 && u[345] == 0
    requires u[124..136] == Octal(Unsigned(size), 11) + [0]
    requires u[156] == kind && HasMagic(u) && u[263] == 48 && u[264] == 48
    ensures Layout(Put(u, ChksumField(c)), n, kind, size, c)
    ensures Sum(Put(u, ChksumField(c)), 512) == Sum(u, 512)
  {
    hide Octal, Sum, Put, HasMagic;
    var f := ChksumField(c);
    var h := Put(u, f);
    PutSame(u, f);
    PutOther(u, f, 124, 136);
    forall i: nat | i < 512 && !(148 <= i < 156) ensures h[i] == u[i] { PutAt(u, f, i); }
    SumIgnoresField(h, u, 512);
    MagicKept(u, h);
  }

  lemma MagicKept(h: Bytes, g: Bytes)
    requires |h| == |g| == 512 && forall i | 257 <= i < 263 :: h[i] == g[i]
    ensures HasMagic(h) <==> HasMagic(g)
  {}

  // Parsing a made header gives back the stripped name, the type and the size, exactly when the size is not
  // negative or the entry is a directory; a directory's size reads as 0.
  lemma MakeParse(name: Bytes, kind: Byte, size: int)
    requires CString(name) && |Strip(name)| <= 99
    requires -0x8000_0000 <= size <= 0x7fff_ffff && (kind == REGULAR || kind == DIRECTORY)
    ensures var h := Make(name, kind, size);
            && h.Some? && |h.value| == 512
            && Parse(h.value) == (if kind == DIRECTORY then Entry(Strip(name), DIRECTORY, 0)
                                  else if size >= 0 then Entry(Strip(name), REGULAR, size)
                                  else TooLarge)
  {
    hide Make, Sum, Octal, Strip, ParseFrom, CStr, Harmless, CString;
    MadeLayout(name, kind, size);
    StripHarmless(name);
    StripFixed(name);
    var h := Make(name, kind, size).value;
    CStrOf(h[..100], Strip(name));
    OctalRoundTrip(Sum(h, 512), 7);
    OctalRoundTrip(Unsigned(size), 11);
    assert h[257] == 117;
  }

  // Making fails exactly for names that are too long after stripping.
  lemma MakeFails(name: Bytes, kind: Byte, size: int)
    requires -0x8000_0000 <= size <= 0x7fff_ffff
    ensures Make(name, kind, size).None? <==> |Strip(name)| > 99
  {}

  // Whatever header is parsed, the name it yields is harmless.
  lemma ParsedHarmless(h: Bytes)
    requires |h| == 512 && Parse(h).Entry?
    ensures Harmless(Parse(h).name) && Parse(h).size <= 0x7fff_ffff
  {
    hide Sum, ParseFrom, Strip, CStr, Harmless, AllZeros, HasMagic, CString;
    StripHarmless(CStr(h[..100]));
  }

  // ---- The checksum catches every single wrong byte ----

  lemma {:induction false} SumChanges(h: Bytes, g: Bytes, n: nat, k: nat)
    requires k < n <= |h| && n <= |g| && !(148 <= k < 156) && h[k] != g[k]
    requires forall i | 0 <= i < n && i != k :: h[i] == g[i]
    ensures Sum(h, n) != Sum(g, n)
  {
    if k == n - 1 {
      SumIgnoresField(h, g, n - 1);
    } else {
      SumChanges(h, g, n - 1, k);
    }
  }

  // A header that was accepted is not accepted once a single byte outside the checksum field is changed.
  lemma OneByteDetected(h: Bytes, g: Bytes, k: nat)
    requires |h| == |g| == 512 && Parse(h).Entry? && k < 512 && !(148 <= k < 156) && h[k] != g[k]
    requires forall i | 0 <= i < 512 && i != k :: h[i] == g[i]
    ensures !Parse(g).Entry? && !Parse(g).EndOfArchive?
  {
    hide ParseFrom, Sum, Strip, CStr;
    SumChanges(h, g, 512, k);
    assert h[148..156] == g[148..156];
    assert h[257] == 117 && h[258] == 115;
    assert g[257] != 0 || g[258] != 0;
  }

  // ---- What is accepted and refused ----

  // A header is accepted exactly if all of this holds, in whatever order it is looked at.
  ghost predicate Acceptable(h: Bytes)
    requires |h| == 512
  {
    && HasMagic(h) && h[263] == 48 && h[264] == 48
    && ParseFrom(h[148..156], 0, 0) == Some(Sum(h, 512))
    && h[99] == 0 && h[345] == 0
    && (h[156] == DIRECTORY
        || (h[156] == REGULAR && ParseFrom(h[124..136], 0, 0).Some? && ParseFrom(h[124..136], 0, 0).value <= 0x7fff_ffff))
  }

  lemma ParseAccepts(h: Bytes)
    requires |h| == 512
    ensures Parse(h).Entry? <==> Acceptable(h)
    ensures Parse(h).Entry? ==>
              && Parse(h).kind == h[156] && Parse(h).name == Strip(CStr(h[..100]))
              && Parse(h).size == if h[156] == REGULAR then ParseFrom(h[124..136], 0, 0).value else 0
    ensures Parse(h).EndOfArchive? <==> forall i | 0 <= i < 512 :: h[i] == 0
  {
    hide ParseFrom, Sum, Strip, CStr;
    if HasMagic(h) {
      assert h[257] == 117;
    }
  }

  // What each refusal says about the header.
  lemma ParseRefuses(h: Bytes)
    requires |h| == 512
    ensures match Parse(h)
            case EndOfArchive => AllZeros(h)
            case Entry(_, _, _) => Acceptable(h)
            case NotUstar => !HasMagic(h)
            case BadVersion => h[263] != 48 || h[264] != 48
            case CorruptChksum => ParseFrom(h[148..156], 0, 0).None?
            case ChksumMismatch => ParseFrom(h[148..156], 0, 0).Some? && ParseFrom(h[148..156], 0, 0).value != Sum(h, 512)
            case NameTooLong => h[99] != 0 || h[345] != 0
            case BadType => h[156] != REGULAR && h[156] != DIRECTORY
            case CorruptSize => h[156] == REGULAR && ParseFrom(h[124..136], 0, 0).None?
            case TooLarge => h[156] == REGULAR && ParseFrom(h[124..136], 0, 0).Some? && ParseFrom(h[124..136], 0, 0).value > 0x7fff_ffff
  {
    hide ParseFrom, Sum, Strip, CStr, AllZeros, HasMagic;
  }

  // ---- The checksum, and the other fields ----

  // The plain sum of the first n bytes.
  function Total(h: Bytes, n: nat): nat
    requires n <= |h|
  {
    if n == 0 then 0 else Total(h, n - 1) + h[n - 1]
  }

  // The checksum is the sum of all bytes, with a space in place of each of the eight bytes of its own field.
  lemma {:induction false} SumPrefix(h: Bytes, n: nat)
    requires |h| == 512 && n <= 512
    ensures n <= 148 ==> Sum(h, n) == Total(h, n)
    ensures 148 <= n <= 156 ==> Sum(h, n) == Total(h, 148) + 32 * (n - 148)
    ensures 156 <= n ==> Sum(h, n) + Total(h, 156) == Total(h, n) + Total(h, 148) + 8 * 32
    decreases n
  {
    if n > 0 { SumPrefix(h, n - 1); }
  }

  lemma SumMeans(h: Bytes)
    requires |h| == 512
    ensures Sum(h, 512) == Total(h, 512) - (Total(h, 156) - Total(h, 148)) + 8 * 32
  {
    SumPrefix(h, 512);
  }

  // A field of the header before the checksum is filled in, and after.
  lemma FieldBytes(name: Bytes, kind: Byte, size: int, k: nat)
    requires -0x8000_0000 <= size <= 0x7fff_ffff && |name| <= 99 && k < 11
    ensures var f, u := Fields(name, kind, size)[k], Unsummed(name, kind, size);
            && f.at == Start(k) && f.at + |f.bytes| <= 512 && (k > 0 ==> |f.bytes| == Room(k))
            && u[f.at..f.at + |f.bytes|] == f.bytes
  {
    hide Fields, Unsummed, Start, Room;
    FieldSlot(name, kind, size, k);
    SlotsApart(k, if k == 0 then 1 else 0);
    var f, u := Fields(name, kind, size)[k], Unsummed(name, kind, size);
    forall i: nat | f.at <= i < f.at + |f.bytes| ensures u[i] == f.bytes[i - f.at] {
      InField(name, kind, size, k, i);
    }
  }

  lemma MadeField(name: Bytes, kind: Byte, size: int, k: nat)
    requires -0x8000_0000 <= size <= 0x7fff_ffff && |Strip(name)| <= 99 && 0 < k < 11
    ensures Make(name, kind, size).Some? && |Make(name, kind, size).value| == 512
    ensures Start(k) + Room(k) <= 512
    ensures Make(name, kind, size).value[Start(k)..Start(k) + Room(k)] == Fields(Strip(name), kind, size)[k].bytes
  {
    hide Fields, Unsummed, Sum, Octal, Strip, Put, Make, Start, Room;
    var n := Strip(name);
    var u := Unsummed(n, kind, size);
    MadeIs(name, kind, size);
    FieldBytes(n, kind, size, k);
    ChksumApart(k);
    PutOther(u, ChksumField(Sum(u, 512)), Start(k), Start(k) + Room(k));
  }

  lemma MadeIs(name: Bytes, kind: Byte, size: int)
    requires -0x8000_0000 <= size <= 0x7fff_ffff && |Strip(name)| <= 99
    ensures var u := Unsummed(Strip(name), kind, size);
            && |Octal(Sum(u, 512), 7)| == 7
            && Make(name, kind, size) == Some(Put(u, ChksumField(Sum(u, 512))))
  {
    hide Unsummed, Sum, Octal, Strip, Put;
    OctalWidths(Sum(Unsummed(Strip(name), kind, size), 512));
  }

  lemma ChksumApart(k: nat)
    requires k < 11
    ensures Start(k) + Room(k) <= 148 || 156 <= Start(k)
    ensures Start(k) + Room(k) <= 512
  {}

  // The fields of a made header that parsing does not look at: permissions, owner, times and names.
  lemma MadeOwner(name: Bytes, kind: Byte, size: int)
    requires -0x8000_0000 <= size <= 0x7fff_ffff && |Strip(name)| <= 99
    ensures Make(name, kind, size).Some?
    ensures var h := Make(name, kind, size).value;
            && |h| == 512
            && ParseFrom(h[100..108], 0, 0) == Some(if kind == REGULAR then 0x1a4 else 0x1ed)     // 0644, 0755
            && ParseFrom(h[108..116], 0, 0) == Some(0) && ParseFrom(h[116..124], 0, 0) == Some(0)
            && ParseFrom(h[136..148], 0, 0) == Some(1136102400)
            && h[265..270] == [114, 111, 111, 116, 0] && h[297..302] == [114, 111, 111, 116, 0]
  {
    hide Make, Strip, ParseFrom, Octal, Zeros;
    MadeField(name, kind, size, 1);
    MadeField(name, kind, size, 2);
    MadeField(name, kind, size, 3);
    MadeField(name, kind, size, 5);
    MadeField(name, kind, size, 9);
    MadeField(name, kind, size, 10);
    OctalRoundTrip(if kind == REGULAR then 0x1a4 else 0x1ed, 7);
    OctalRoundTrip(1136102400, 11);
    ZerosParse();
  }

  lemma ZerosParse()
    ensures ParseFrom(Zeros(7) + [0], 0, 0) == Some(0)
  {
    hide ParseFrom;
    var s := Zeros(7) + [0];
    ParseZeros(s, 0, 7);
    ParseEnds(s, 7, 0);
  }

  // Whatever is in no field is zero.
  lemma MadeBlank(name: Bytes, kind: Byte, size: int, i: nat)
    requires -0x8000_0000 <= size <= 0x7fff_ffff && |Strip(name)| <= 99
    requires |Strip(name)| < i < 100 || 157 <= i < 257 || 270 <= i < 297 || 302 <= i < 512
    ensures Make(name, kind, size).Some? && Make(name, kind, size).value[i] == 0
  {
    hide Strip, Sum, Octal, Put, Make, PutAll, Start, Room;
    var n := Strip(name);
    var u := Unsummed(n, kind, size);
    MadeIs(name, kind, size);
    FieldsInside(n, kind, size);
    var f := Fields(n, kind, size);
    assert f[0].bytes == n + [0];
    hide Fields;
    forall j: nat | j < 11 ensures !(f[j].at <= i < f[j].at + |f[j].bytes|) {
      FieldSlot(n, kind, size, j);
      BlankPlaces(i, j);
    }
    PutAllLeaves(Blank(), f, 11, i);
    PutAt(u, ChksumField(Sum(u, 512)), i);
  }

  lemma BlankPlaces(i: nat, j: nat)
    requires j < 11 && (i < 100 || 157 <= i < 257 || 270 <= i < 297 || 302 <= i < 512)
    ensures j > 0 ==> !(Start(j) <= i < Start(j) + Room(j))
    ensures i >= 100 ==> !(Start(0) <= i < Start(0) + Room(0))
    ensures Start(0) == 0
  {}
}
