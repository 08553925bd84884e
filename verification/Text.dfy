/** The text primitives behind parse_sagebc: decimal counts, hexadecimal payloads and the second word of a
    line. */
module Text {
  import opened Bytes

  // ---------------------------------------------------------------- decimal numbers

  function Digit(n: nat): char
    requires n < 10
  {
    '0' + n as char
  }

  function Dec(n: nat): (s: string)
    ensures s != []
  {
    if n < 10 then [Digit(n)] else Dec(n / 10) + [Digit(n % 10)]
  }

  predicate IsDigit(c: char) { '0' <= c <= '9' }

  /** int() on a run of digits. */
  function Number(s: string): (r: Option<nat>)
  {
    if s == [] || !IsDigit(s[|s| - 1]) then None
    else if |s| == 1 then Some((s[0] - '0') as int)
    else match Number(s[..|s| - 1])
         case None => None
         case Some(n) => Some(n * 10 + (s[|s| - 1] - '0') as int)
  }

  /** int(): an optional sign before the digits. */
  function Int(s: string): (r: Option<int>)
  {
    if s != [] && s[0] in {'-', '+'} then
      match Number(s[1..])
      case None => None
      case Some(n) => Some(if s[0] == '-' then -(n as int) else n as int)
    else
      match Number(s)
      case None => None
      case Some(n) => Some(n)
  }

  lemma {:induction false} NumberOfDec(n: nat)
    ensures Number(Dec(n)) == Some(n)
    ensures forall k :: 0 <= k < |Dec(n)| ==> IsDigit(Dec(n)[k])
  {
    if n >= 10 {
      NumberOfDec(n / 10);
      var s := Dec(n);
      assert s[..|s| - 1] == Dec(n / 10);
    }
  }

  lemma IntOfDec(n: nat)
    ensures Int(Dec(n)) == Some(n)
  {
    NumberOfDec(n);
  }

  // ---------------------------------------------------------------- hexadecimal payloads

  function HexDigit(v: nat): char
    requires v < 16
  {
    if v < 10 then '0' + v as char else 'a' + (v - 10) as char
  }

  function HexValue(c: char): (r: Option<nat>)
    ensures r.Some? ==> r.value < 16
  {
    if '0' <= c <= '9' then Some((c - '0') as int)
    else if 'a' <= c <= 'f' then Some((c - 'a') as int + 10)
    else if 'A' <= c <= 'F' then Some((c - 'A') as int + 10)
    else None
  }

  function Hex(data: seq<Byte>): string
  {
    if data == [] then [] else [HexDigit(data[0] / 16), HexDigit(data[0] % 16)] + Hex(data[1..])
  }

  /** bytes.fromhex */
  function FromHex(s: string): (r: Option<seq<Byte>>)
  {
    if s == [] then Some([])
    else if |s| == 1 then None
    else match (HexValue(s[0]), HexValue(s[1]))
         case (Some(hi), Some(lo)) =>
           (match FromHex(s[2..]) case None => None case Some(t) => Some([hi * 16 + lo] + t))
         case _ => None
  }

  lemma HexDigitBack(v: nat)
    requires v < 16
    ensures HexValue(HexDigit(v)) == Some(v)
  {
  }

  lemma {:induction false} HexRoundTrip(data: seq<Byte>)
    ensures FromHex(Hex(data)) == Some(data)
  {
    if data != [] {
      HexDigitBack(data[0] / 16);
      HexDigitBack(data[0] % 16);
      assert Hex(data)[2..] == Hex(data[1..]);
      HexRoundTrip(data[1..]);
      assert [data[0]] + data[1..] == data;
    }
  }

  // ---------------------------------------------------------------- words of a line

  predicate IsSpace(c: char) { c in {' ', '\t', '\n', '\r', '\U{000B}', '\U{000C}'} }

  predicate IsWord(s: string) { s != [] && forall k :: 0 <= k < |s| ==> !IsSpace(s[k]) }

  function DropSpace(s: string): string
  {
    if s != [] && IsSpace(s[0]) then DropSpace(s[1..]) else s
  }

  function DropWord(s: string): string
  {
    if s != [] && !IsSpace(s[0]) then DropWord(s[1..]) else s
  }

  function TakeWord(s: string): string
  {
    if s != [] && !IsSpace(s[0]) then [s[0]] + TakeWord(s[1..]) else []
  }

  /** line.split()[1]; None when the line has no second word. */
  function SecondWord(line: string): (r: Option<string>)
  {
    var w := TakeWord(DropSpace(DropWord(DropSpace(line))));
    if w == [] then None else Some(w)
  }

  lemma {:induction false} DropWordOf(w: string, t: string)
    requires IsWord(w) && (t == [] || IsSpace(t[0]))
    ensures DropWord(w + t) == t
    decreases |w|
  {
    assert (w + t)[0] == w[0] && (w + t)[1..] == w[1..] + t;
    if |w| > 1 {
      DropWordOf(w[1..], t);
    } else {
      assert w[1..] + t == t;
    }
  }

  lemma {:induction false} TakeWordOf(w: string)
    requires IsWord(w)
    ensures TakeWord(w) == w
    decreases |w|
  {
    if |w| > 1 {
      TakeWordOf(w[1..]);
      assert [w[0]] + w[1..] == w;
    }
  }

  lemma SecondWordOf(a: string, b: string)
    requires IsWord(a) && IsWord(b)
    ensures SecondWord(a + [' '] + b) == Some(b)
  {
    var line := a + [' '] + b;
    assert line == a + ([' '] + b);
    assert line[0] == a[0];
    assert DropSpace(line) == line;
    DropWordOf(a, [' '] + b);
    assert ([' '] + b)[1..] == b;
    assert DropSpace(b) == b;
    TakeWordOf(b);
  }

  lemma {:induction false} DecIsWord(n: nat)
    ensures IsWord(Dec(n))
  {
    NumberOfDec(n);
    forall k | 0 <= k < |Dec(n)| ensures !IsSpace(Dec(n)[k]) {
      assert IsDigit(Dec(n)[k]);
    }
  }
}
