/**
 * The command string sent to the device: the resolved decimal numerals
 * joined with `;` (Python's `";".join`), and its bytes
 * (`bytes(s, 'utf-8')`, which for these characters is ASCII).
 */
module Command {
  import opened Numerals

  const Separator: char := ';'

  /** `";".join(parts)`: the empty list joins to the empty string. */
  function Join(parts: seq<string>): (r: string)
    ensures |parts| == 1 ==> r == parts[0]
    ensures (forall i :: 0 <= i < |parts| ==> Separator !in parts[i]) ==>
      multiset(r)[Separator] == if parts == [] then 0 else |parts| - 1
  {
    if parts == [] then ""
    else if |parts| == 1 then parts[0]
    else
      var rest := Join(parts[1..]);
      assert forall i :: 1 <= i < |parts| ==> parts[1..][i - 1] == parts[i];
      parts[0] + [Separator] + rest
  }

  /** Index of the first separator in `s`. */
  function FirstSeparator(s: string): (i: nat)
    requires Separator in s
    ensures i < |s| && s[i] == Separator && Separator !in s[..i]
  {
    if s[0] == Separator then 0
    else
      var j := FirstSeparator(s[1..]);
      assert s[..j + 1] == [s[0]] + s[1..][..j];
      j + 1
  }

  /** `s.split(";")`: the pieces between separators, always at least one. */
  function Split(s: string): (r: seq<string>)
    ensures |r| > 0
    ensures forall i :: 0 <= i < |r| ==> Separator !in r[i]
    decreases |s|
  {
    if Separator !in s then [s]
    else
      var i := FirstSeparator(s);
      [s[..i]] + Split(s[i + 1..])
  }

  /**
   * Splitting a join recovers the parts, provided there is at least one
   * part and no part contains the separator.
   */
  lemma {:induction false} SplitJoin(parts: seq<string>)
    requires |parts| > 0
    requires forall i :: 0 <= i < |parts| ==> Separator !in parts[i]
    ensures Split(Join(parts)) == parts
    decreases |parts|
  {
    if |parts| > 1 {
      var p := parts[0];
      var rest := parts[1..];
      assert forall i :: 0 <= i < |rest| ==> rest[i] == parts[i + 1];
      var s := Join(parts);
      assert s == p + [Separator] + Join(rest);
      assert s[|p|] == Separator;
      assert s[..|p|] == p;
      var i := FirstSeparator(s);
      assert i == |p|;
      assert s[i + 1..] == Join(rest);
      SplitJoin(rest);
      assert parts == [p] + rest;
    }
  }

  /** The characters of a command string. */
  predicate CommandChar(c: char) {
    DigitValue(Dec, c).Some? || c == Separator
  }

  /** Each character of a join comes from a part or is the separator. */
  lemma {:induction false} JoinChars(parts: seq<string>)
    requires forall i :: 0 <= i < |parts| ==> AllDigits(Dec, parts[i])
    ensures forall k :: 0 <= k < |Join(parts)| ==> CommandChar(Join(parts)[k])
    decreases |parts|
  {
    if |parts| > 1 {
      var rest := parts[1..];
      assert forall i :: 0 <= i < |rest| ==> rest[i] == parts[i + 1];
      JoinChars(rest);
      var s := Join(parts);
      assert s == parts[0] + [Separator] + Join(rest);
      forall k | 0 <= k < |s| ensures CommandChar(s[k]) {
        if k < |parts[0]| {
          assert s[k] == parts[0][k];
        } else if k > |parts[0]| {
          assert s[k] == Join(rest)[k - |parts[0]| - 1];
        }
      }
    } else if |parts| == 1 {
      assert Join(parts) == parts[0];
    }
  }

  newtype byte = x: int | 0 <= x < 256

  predicate IsAscii(s: string) {
    forall i :: 0 <= i < |s| ==> s[i] as int < 128
  }

  /** The UTF-8 bytes of an ASCII string: one byte per character, holding
      its code point. */
  function Encode(s: string): (r: seq<byte>)
    requires IsAscii(s)
    ensures |r| == |s|
  {
    seq(|s|, i requires 0 <= i < |s| => s[i] as int as byte)
  }

  /** The text the device reads back from the bytes it received. */
  function Decode(bs: seq<byte>): (r: string)
    ensures |r| == |bs|
  {
    seq(|bs|, i requires 0 <= i < |bs| => bs[i] as int as char)
  }

  lemma EncodeDecode(s: string)
    requires IsAscii(s)
    ensures Decode(Encode(s)) == s
  {
    assert forall i :: 0 <= i < |s| ==> Decode(Encode(s))[i] == s[i];
  }
}
