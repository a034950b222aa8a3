/**
 * C text at the boundary of the crate (src/internal.rs): NUL-terminated byte
 * buffers, Rust's UTF-8 encoding of `&str`, and the strict UTF-8 check that
 * `CStr::to_str` performs.
 */
module CText {
  import opened Wrappers
  import opened Bytes

  /** The bytes `CStr::from_ptr` sees in `mem`: everything before the first NUL. */
  function CStrOf(mem: seq<byte>): (r: seq<byte>)
    requires 0 in mem
    ensures |r| < |mem| && r == mem[..|r|] && mem[|r|] == 0 && 0 !in r
  {
    if mem[0] == 0 then [] else [mem[0]] + CStrOf(mem[1..])
  }

  /** A NUL at `k` with none before it ends the C string there. */
  lemma CStrOfAt(mem: seq<byte>, k: nat)
    requires k < |mem| && mem[k] == 0 && 0 !in mem[..k]
    ensures CStrOf(mem) == mem[..k]
  {
  }

  // ---- UTF-8 ----

  /** The UTF-8 bytes of one character. */
  function EncodeChar(c: char): (r: seq<byte>)
    ensures 1 <= |r| <= 4
    ensures 0 in r <==> c == '\0'
    ensures |r| == 1 <==> c as int < 0x80
  {
    var n := c as int;
    if n < 0x80 then [n as byte]
    else if n < 0x800 then [(0xC0 + n / 64) as byte, (0x80 + n % 64) as byte]
    else if n < 0x10000 then
      [(0xE0 + n / 4096) as byte, (0x80 + (n / 64) % 64) as byte, (0x80 + n % 64) as byte]
    else
      [(0xF0 + n / 262144) as byte, (0x80 + (n / 4096) % 64) as byte,
       (0x80 + (n / 64) % 64) as byte, (0x80 + n % 64) as byte]
  }

  /** The bytes of a Rust `&str`. */
  function Utf8Encode(s: string): (r: seq<byte>)
    ensures 0 in r <==> '\0' in s
    ensures |r| >= |s|
  {
    if s == [] then [] else EncodeChar(s[0]) + Utf8Encode(s[1..])
  }

  predicate IsAscii(s: string) {
    forall i :: 0 <= i < |s| ==> s[i] as int < 0x80
  }

  /** `str::len` counts bytes: it equals the number of characters exactly for ASCII text. */
  lemma {:induction false} Utf8LenAscii(s: string)
    ensures |Utf8Encode(s)| == |s| <==> IsAscii(s)
  {
    if s != [] {
      Utf8LenAscii(s[1..]);
      assert IsAscii(s) <==> s[0] as int < 0x80 && IsAscii(s[1..]) by {
        if s[0] as int < 0x80 && IsAscii(s[1..]) {
          forall i | 0 <= i < |s| ensures s[i] as int < 0x80 {
            if i > 0 { assert s[i] == s[1..][i - 1]; }
          }
        }
      }
    }
  }

  predicate Cont(x: byte) { 0x80 <= x <= 0xBF }

  /**
   * The length of the well-formed UTF-8 sequence at the start of `b`
   * (Table 3-7 of the Unicode Standard), or 0 when there is none.
   */
  function LeadLength(b: seq<byte>): (n: nat)
    ensures n <= |b| && n <= 4
  {
    if |b| == 0 then 0
    else
      var b0 := b[0];
      if b0 <= 0x7F then 1
      else if 0xC2 <= b0 <= 0xDF then
        if |b| >= 2 && Cont(b[1]) then 2 else 0
      else if 0xE0 <= b0 <= 0xEF then
        var lo := if b0 == 0xE0 then 0xA0 else 0x80;
        var hi := if b0 == 0xED then 0x9F else 0xBF;
        if |b| >= 3 && lo <= b[1] <= hi && Cont(b[2]) then 3 else 0
      else if 0xF0 <= b0 <= 0xF4 then
        var lo := if b0 == 0xF0 then 0x90 else 0x80;
        var hi := if b0 == 0xF4 then 0x8F else 0xBF;
        if |b| >= 4 && lo <= b[1] <= hi && Cont(b[2]) && Cont(b[3]) then 4 else 0
      else 0
  }

  /** The character the well-formed sequence at the start of `b` encodes. */
  function DecodeChar(b: seq<byte>): char
    requires LeadLength(b) > 0
  {
    var n := LeadLength(b);
    var v: int :=
      if n == 1 then b[0] as int
      else if n == 2 then (b[0] as int - 0xC0) * 64 + (b[1] as int - 0x80)
      else if n == 3 then (b[0] as int - 0xE0) * 4096 + (b[1] as int - 0x80) * 64 + (b[2] as int - 0x80)
      else (b[0] as int - 0xF0) * 262144 + (b[1] as int - 0x80) * 4096
           + (b[2] as int - 0x80) * 64 + (b[3] as int - 0x80);
    v as char
  }

  /** `str::from_utf8`: the text the bytes spell, or None if they are not well-formed UTF-8. */
  function Utf8Decode(b: seq<byte>): Option<string>
    decreases |b|
  {
    if b == [] then Some([])
    else
      var n := LeadLength(b);
      if n == 0 then None
      else match Utf8Decode(b[n..])
        case None => None
        case Some(rest) => Some([DecodeChar(b)] + rest)
  }

  /** The three base-64 digits below 0x10000, as the three-byte form stores them. */
  lemma Split3(n: int)
    requires 0 <= n
    ensures n == (n / 4096) * 4096 + ((n / 64) % 64) * 64 + n % 64
  {
    ModUnique(n, 4096, (n / 64) / 64, ((n / 64) % 64) * 64 + n % 64);
  }

  /** The four base-64 digits, as the four-byte form stores them. */
  lemma Split4(n: int)
    requires 0 <= n
    ensures n == (n / 262144) * 262144 + ((n / 4096) % 64) * 4096 + ((n / 64) % 64) * 64 + n % 64
  {
    Split3(n);
    Split3(n / 64);
    ModUnique(n, 262144, (n / 4096) / 64, ((n / 4096) % 64) * 4096 + ((n / 64) % 64) * 64 + n % 64);
  }

  lemma EncodeCharDecodes(c: char, rest: seq<byte>)
    ensures LeadLength(EncodeChar(c) + rest) == |EncodeChar(c)|
    ensures DecodeChar(EncodeChar(c) + rest) == c
  {
    var n := c as int;
    if 0x800 <= n < 0x10000 {
      Split3(n);
    } else if 0x10000 <= n {
      Split4(n);
    }
  }

  lemma DecodeCharEncodes(b: seq<byte>)
    requires LeadLength(b) > 0
    ensures EncodeChar(DecodeChar(b)) == b[..LeadLength(b)]
  {
    var n := LeadLength(b);
    var v := DecodeChar(b) as int;
    if n == 2 {
      ModUnique(v, 64, b[0] as int - 0xC0, b[1] as int - 0x80);
    } else if n == 3 {
      ModUnique(v, 64, (b[0] as int - 0xE0) * 64 + (b[1] as int - 0x80), b[2] as int - 0x80);
      ModUnique(v / 64, 64, b[0] as int - 0xE0, b[1] as int - 0x80);
      ModUnique(v, 4096, b[0] as int - 0xE0, (b[1] as int - 0x80) * 64 + (b[2] as int - 0x80));
    } else if n == 4 {
      ModUnique(v, 64, (b[0] as int - 0xF0) * 4096 + (b[1] as int - 0x80) * 64 + (b[2] as int - 0x80), b[3] as int - 0x80);
      ModUnique(v / 64, 64, (b[0] as int - 0xF0) * 64 + (b[1] as int - 0x80), b[2] as int - 0x80);
      ModUnique(v, 4096, (b[0] as int - 0xF0) * 64 + (b[1] as int - 0x80), (b[2] as int - 0x80) * 64 + (b[3] as int - 0x80));
      ModUnique(v / 4096, 64, b[0] as int - 0xF0, b[1] as int - 0x80);
      ModUnique(v, 262144, b[0] as int - 0xF0, (b[1] as int - 0x80) * 4096 + (b[2] as int - 0x80) * 64 + (b[3] as int - 0x80));
    }
  }

  /** Decoding the bytes of a Rust string gives the string back. */
  lemma {:induction false} DecodeEncode(s: string)
    ensures Utf8Decode(Utf8Encode(s)) == Some(s)
  {
    if s != [] {
      var b, e, t := Utf8Encode(s), EncodeChar(s[0]), Utf8Encode(s[1..]);
      assert b == e + t;
      EncodeCharDecodes(s[0], t);
      assert b[|e|..] == t;
      DecodeEncode(s[1..]);
      assert Utf8Decode(b) == Some([s[0]] + s[1..]);
      assert [s[0]] + s[1..] == s;
    }
  }

  /** `try_c_const_char_to_string`: the C string as text, or None if it is not UTF-8. */
  function TryCConstCharToString(mem: seq<byte>): (r: Option<string>)
    requires 0 in mem
    ensures r.Some? ==> Utf8Encode(r.value) == CStrOf(mem)
    ensures r.None? <==> forall s: string :: Utf8Encode(s) != CStrOf(mem)
  {
    var r := Utf8Decode(CStrOf(mem));
    if r.None? then
      assert forall s: string :: Utf8Encode(s) != CStrOf(mem) by {
        forall s: string ensures Utf8Encode(s) != CStrOf(mem) {
          DecodeEncode(s);
        }
      }
      r
    else
      DecodeSound(CStrOf(mem));
      r
  }

  lemma {:induction false} DecodeSound(b: seq<byte>)
    requires Utf8Decode(b).Some?
    ensures Utf8Encode(Utf8Decode(b).value) == b
    decreases |b|
  {
    if b != [] {
      var n := LeadLength(b);
      FirstSequence(b);
      var rest := b[n..];
      DecodeSound(rest);
      SplitJoin(b, n, Utf8Encode(Utf8Decode(b).value), Utf8Encode(Utf8Decode(rest).value));
    }
  }

  /** The bytes of a decoded text are the first sequence's and then those of the rest's decoding. */
  lemma FirstSequence(b: seq<byte>)
    requires b != [] && Utf8Decode(b).Some?
    ensures 0 < LeadLength(b) && Utf8Decode(b[LeadLength(b)..]).Some?
    ensures Utf8Encode(Utf8Decode(b).value) == b[..LeadLength(b)] + Utf8Encode(Utf8Decode(b[LeadLength(b)..]).value)
  {
    DecodeStep(b);
    DecodeCharEncodes(b);
    EncodeCons(DecodeChar(b), Utf8Decode(b[LeadLength(b)..]).value);
  }

  lemma SplitJoin(b: seq<byte>, n: nat, whole: seq<byte>, tail: seq<byte>)
    requires n <= |b| && whole == b[..n] + tail && tail == b[n..]
    ensures whole == b
  {
    assert b == b[..n] + b[n..];
  }

  /** A well-formed text decodes its first sequence and then the rest. */
  lemma DecodeStep(b: seq<byte>)
    requires b != [] && Utf8Decode(b).Some?
    ensures LeadLength(b) > 0 && Utf8Decode(b[LeadLength(b)..]).Some?
    ensures Utf8Decode(b).value == [DecodeChar(b)] + Utf8Decode(b[LeadLength(b)..]).value
  {
  }

  /** A text's bytes are its first character's and then the rest's. */
  lemma EncodeCons(c: char, s: string)
    ensures Utf8Encode([c] + s) == EncodeChar(c) + Utf8Encode(s)
  {
    assert ([c] + s)[1..] == s;
  }

  /** `cmp_c_const_char`: the two C strings have identical bytes. */
  function CmpCConstChar(first: seq<byte>, second: seq<byte>): (r: bool)
    requires 0 in first && 0 in second
    ensures r <==> exists k :: 0 <= k < |first| && k < |second| && first[k] == 0 && first[..k + 1] == second[..k + 1]
  {
    var a, b := CStrOf(first), CStrOf(second);
    if a == b then
      assert first[..|a| + 1] == second[..|a| + 1];
      true
    else
      false
  }

  /** `dup_c_const_char`: a new buffer holding the same C string and its terminator. */
  function DupCConstChar(text: seq<byte>): (r: seq<byte>)
    requires 0 in text
    ensures 0 in r && CmpCConstChar(r, text)
    ensures |r| == |CStrOf(text)| + 1 && r[|r| - 1] == 0
  {
    var r := CStrOf(text) + [0];
    CStrOfAt(r, |r| - 1);
    r
  }
}
