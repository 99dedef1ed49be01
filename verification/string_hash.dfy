/** `stringHashcode` (lib/make-hot.js:127-132): the string-hash of
    darkskyapp/string-hash.  JavaScript strings are sequences of UTF-16 code
    units and `charCodeAt` reads one unit, so the hash walks the UTF-16 form of
    the text.  Every intermediate value of the source's `hash` is a 32-bit
    integer (`<<` and `^` truncate their operands to 32 bits, and the
    subtraction in between is exact on doubles), so `bv32` arithmetic
    computes the same bits; `hash >>> 0` reads them as unsigned. */
module StringHash {
  import Radix

  /** The UTF-16 code unit values of one character: the character itself
      below U+10000, otherwise a high and a low surrogate that decode to it. */
  function UnitValues(c: char): (r: seq<int>)
    ensures |r| == 1 <==> (c as int) < 0x10000
    ensures |r| == 1 ==> r[0] == c as int
    ensures |r| != 1 ==> |r| == 2 && 0xD800 <= r[0] < 0xDC00 <= r[1] < 0xE000
    ensures |r| != 1 ==> 0x10000 + (r[0] - 0xD800) * 0x400 + (r[1] - 0xDC00) == c as int
    ensures forall i :: 0 <= i < |r| ==> 0 <= r[i] < 0x10000
  {
    var v := c as int;
    if v < 0x10000 then [v]
    else
      var w := v - 0x10000;
      [0xD800 + w / 0x400, 0xDC00 + w % 0x400]
  }

  /** A code unit value as the 16 bits `charCodeAt` returns. */
  function Unit(v: int): bv16
    requires 0 <= v < 0x10000
  {
    v as bv16
  }

  function CodeUnits(c: char): seq<bv16>
  {
    var v := UnitValues(c);
    seq(|v|, i requires 0 <= i < |v| => Unit(v[i]))
  }

  /** The string as `charCodeAt` sees it. */
  function Utf16(s: string): (u: seq<bv16>)
    ensures |u| >= |s|
  {
    if s == [] then [] else CodeUnits(s[0]) + Utf16(s[1..])
  }

  /** Text below U+10000 has one code unit per character, its own code. */
  lemma {:induction false} Utf16Bmp(s: string)
    requires forall i :: 0 <= i < |s| ==> (s[i] as int) < 0x10000
    ensures |Utf16(s)| == |s|
    ensures forall i :: 0 <= i < |s| ==> Utf16(s)[i] == Unit(s[i] as int)
  {
    if s != [] {
      Utf16Bmp(s[1..]);
      assert CodeUnits(s[0]) == [Unit(s[0] as int)];
      assert Utf16(s) == [Unit(s[0] as int)] + Utf16(s[1..]);
    }
  }

  const Seed: bv32 := 5381

  /** One turn of the loop: the hash shifted left by five, minus itself, xor
      the code unit; that is the hash times 31, xor the code unit, modulo
      2^32. */
  function Step(hash: bv32, code: bv16): bv32
  {
    ((hash << 5) - hash) ^ (code as bv32)
  }

  /** The shift-and-subtract of the loop is multiplication by 31. */
  lemma ShiftSubIsTimes31(h: bv32)
    ensures (h << 5) - h == h * 31
  {
  }

  /** The hash bits of a unit sequence: the loop visits the last unit first,
      so the first unit is folded in last. */
  function Fold(u: seq<bv16>): bv32
  {
    if u == [] then Seed else Step(Fold(u[1..]), u[0])
  }

  /** Every 32-bit value fits in seven base-36 digits. */
  lemma SevenDigits()
    ensures 0x1_0000_0000 <= Radix.Pow(36, 7)
  {
    assert Radix.Pow(36, 7) == 78364164096;
  }

  /** `stringHashcode(s)`: the unsigned hash in base 36. */
  function Hashcode(s: string): (r: string)
    ensures 1 <= |r| <= 7
    ensures forall i :: 0 <= i < |r| ==> Radix.IsDigitOf(r[i], 36)
    ensures |r| > 1 ==> r[0] != '0'
    ensures Radix.FromRadix(r, 36) == Fold(Utf16(s)) as nat
  {
    var n := Fold(Utf16(s)) as nat;
    SevenDigits();
    Radix.ToRadixLength(n, 36, 7);
    Radix.FromToRadix(n, 36);
    Radix.ToRadix(n, 36)
  }

  /** The loop of the source, walking the code units from the end. */
  method StringHashcode(str: string) returns (r: string)
    ensures r == Hashcode(str)
  {
    var units := Utf16(str);
    var hash: bv32 := 5381;
    var i := |units|;
    while i > 0
      invariant 0 <= i <= |units|
      invariant hash == Fold(units[i..])
    {
      i := i - 1;
      assert units[i..][1..] == units[i + 1..];
      hash := Step(hash, units[i]);
    }
    assert units[0..] == units;
    r := Radix.ToRadix(hash as nat, 36);
  }

  /** The empty string hashes to the seed, 5381, which is "45h" in base 36. */
  lemma HashOfEmpty()
    ensures Hashcode("") == "45h"
  {
    assert Fold([]) as nat == 5381;
  }

  /** "a": 5381 * 31 = 166811, xor 97 gives 166906, which is "3ksa". */
  lemma HashOfA()
    ensures Hashcode("a") == "3ksa"
  {
    assert CodeUnits('a') == [Unit(97)];
    assert Utf16("a") == [97];
    assert Fold([97]) == 166906;
    assert Radix.ToRadix(128, 36) == "3k";
    assert Radix.ToRadix(4636, 36) == "3ks";
    assert Radix.ToRadix(166906, 36) == "3ksa";
  }
}
