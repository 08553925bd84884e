/** The layout of a fresh process stack, as section 3.4.1 of the System V AMD64 psABI gives it without the
    auxiliary vector, and a reader that recovers the arguments from it. */
module Argv {
  import opened Bytes

  type Text = s: seq<Byte> | 0 !in s

  const WORD := 0x1_0000_0000_0000_0000

  type Word = w: nat | w < WORD

  // ---------------------------------------------------------------- layout

  /** The n low bytes of w, least significant first. */
  function Low(w: nat, n: nat): (r: seq<Byte>)
    ensures |r| == n
    decreases n, w
  {
    if n == 0 then [] else [w % 256] + Low(w / 256, n - 1)
  }

  function Value(s: seq<Byte>): (w: nat)
  {
    if s == [] then 0 else s[0] + 256 * Value(s[1..])
  }

  function Power(n: nat): (r: nat)
  {
    if n == 0 then 1 else 256 * Power(n - 1)
  }

  /** The bytes of a word stand least significant first. */
  lemma {:induction false} ValueConcat(s: seq<Byte>, t: seq<Byte>)
    ensures Value(s + t) == Value(s) + Power(|s|) * Value(t)
  {
    if s == [] {
      assert s + t == t;
    } else {
      ValueConcat(s[1..], t);
      assert (s + t)[1..] == s[1..] + t;
      assert 256 * (Power(|s| - 1) * Value(t)) == Power(|s|) * Value(t);
    }
  }

  lemma {:induction false} LowValue(w: nat, n: nat)
    requires w < Power(n)
    ensures Value(Low(w, n)) == w
    decreases n
  {
    if n > 0 {
      LowValue(w / 256, n - 1);
      assert Low(w, n)[1..] == Low(w / 256, n - 1);
    }
  }

  /** The strings one after another, each with its NUL. */
  function Blob(ss: seq<Text>): (r: seq<Byte>)
  {
    if ss == [] then [] else ss[0] + [0] + Blob(ss[1..])
  }

  function Packed(ws: seq<Word>): (r: seq<Byte>)
    ensures |r| == 8 * |ws|
  {
    if ws == [] then [] else Low(ws[0], 8) + Packed(ws[1..])
  }

  /** The pointer list of the strings when the first starts at the given address, closed by a null. */
  function Pointers(ss: seq<Text>, at: nat): (r: seq<Word>)
    requires at + |Blob(ss)| < WORD
    ensures |r| == |ss| + 1
  {
    if ss == [] then [0] else [at] + Pointers(ss[1..], at + |ss[0]| + 1)
  }

  // ---------------------------------------------------------------- reading back

  function WordAt(m: seq<Byte>, k: nat): (r: Option<nat>)
  {
    if k + 8 <= |m| then Some(Value(m[k..k + 8])) else None
  }

  /** The bytes from k up to the next NUL. */
  function TextAt(m: seq<Byte>, k: nat): (r: Option<Text>)
    decreases |m| - k
  {
    if k >= |m| then None
    else if m[k] == 0 then Some([])
    else
      match TextAt(m, k + 1)
      case None => None
      case Some(s) => Some([m[k]] + s)
  }

  /** The strings a null-terminated pointer list at k reaches, in memory that starts at address base. */
  function TextsAt(m: seq<Byte>, base: nat, k: nat): (r: Option<seq<Text>>)
    decreases |m| - k
  {
    match WordAt(m, k)
    case None => None
    case Some(p) =>
      if p == 0 then Some([])
      else if p < base then None
      else
        match TextAt(m, p - base)
        case None => None
        case Some(s) =>
          match TextsAt(m, base, k + 8)
          case None => None
          case Some(rest) => Some([s] + rest)
  }

  /** argv and envp as a program finds them from its initial stack pointer. */
  function ReadArguments(m: seq<Byte>, base: nat, sp: nat): (r: Option<(seq<Text>, seq<Text>)>)
    requires base <= sp
  {
    match WordAt(m, sp - base)
    case None => None
    case Some(argc) =>
      match TextsAt(m, base, sp - base + 8)
      case None => None
      case Some(argv) =>
        match TextsAt(m, base, sp - base + 8 + 8 * (argc + 1))
        case None => None
        case Some(envp) => if argc == |argv| then Some((argv, envp)) else None
  }

  lemma {:induction false} HasParts(m: seq<Byte>, k: nat, s: seq<Byte>, t: seq<Byte>)
    ensures Has(m, k, s + t) <==> Has(m, k, s) && Has(m, k + |s|, t)
    decreases |s|
  {
    if s == [] {
      assert s + t == t;
      HasSlice(m, k, t);
    } else {
      assert (s + t)[1..] == s[1..] + t;
      HasParts(m, k + 1, s[1..], t);
    }
  }

  lemma {:induction false} TextRead(m: seq<Byte>, k: nat, s: Text)
    requires Has(m, k, s + [0])
    ensures TextAt(m, k) == Some(s)
    decreases |s|
  {
    if s != [] {
      assert (s + [0])[1..] == s[1..] + [0];
      assert [s[0]] + s[1..] == s;
      TextRead(m, k + 1, s[1..]);
    }
  }

  lemma WordRead(m: seq<Byte>, k: nat, w: Word)
    requires Has(m, k, Low(w, 8))
    ensures WordAt(m, k) == Some(w)
  {
    LowValue(w, 8);
    HasSlice(m, k, Low(w, 8));
  }

  /** The first word of a packed list, and the rest of the list behind it. */
  lemma PackedRead(m: seq<Byte>, k: nat, ws: seq<Word>)
    requires ws != [] && Has(m, k, Packed(ws))
    ensures WordAt(m, k) == Some(ws[0]) && Has(m, k + 8, Packed(ws[1..]))
  {
    HasParts(m, k, Low(ws[0], 8), Packed(ws[1..]));
    WordRead(m, k, ws[0]);
  }

  lemma BlobRead(m: seq<Byte>, k: nat, ss: seq<Text>)
    requires ss != [] && Has(m, k, Blob(ss))
    ensures TextAt(m, k) == Some(ss[0]) && Has(m, k + |ss[0]| + 1, Blob(ss[1..]))
  {
    HasParts(m, k, ss[0] + [0], Blob(ss[1..]));
    TextRead(m, k, ss[0]);
  }

  /** A pointer list whose strings are in place reads back as those strings. */
  lemma {:induction false} TextsRead(m: seq<Byte>, base: nat, k: nat, ss: seq<Text>, at: nat)
    requires 0 < base <= at && at + |Blob(ss)| < WORD
    requires Has(m, k, Packed(Pointers(ss, at))) && Has(m, at - base, Blob(ss))
    ensures TextsAt(m, base, k) == Some(ss)
    decreases |ss|
  {
    PackedRead(m, k, Pointers(ss, at));
    if ss != [] {
      var next := at + |ss[0]| + 1;
      BlobRead(m, at - base, ss);
      assert Pointers(ss, at)[1..] == Pointers(ss[1..], next);
      TextsRead(m, base, k + 8, ss[1..], next);
      assert [ss[0]] + ss[1..] == ss;
    }
  }

  // ---------------------------------------------------------------- the whole frame

  /** Address of the argument strings: below the environment strings, which end at top. */
  function StringsAt(top: nat, argv: seq<Text>, envp: seq<Text>): int
  {
    top - |Blob(envp)| - |Blob(argv)|
  }

  /** Bytes of argc and the two pointer lists. */
  function WordBytes(argv: seq<Text>, envp: seq<Text>): nat
  {
    8 + (|argv| + 1) * 8 + (|envp| + 1) * 8
  }

  /** The initial stack pointer: the words below the aligned strings, one word lower when they are odd in
      number. */
  function InitialSp(top: nat, argv: seq<Text>, envp: seq<Text>): int
  {
    var s := StringsAt(top, argv, envp);
    var n := WordBytes(argv, envp);
    s - s % 16 - (if n % 16 != 0 then 8 else 0) - n
  }

  lemma WordsAligned(s: int, n: nat)
    ensures (s - s % 16 - (if 8 * n % 16 != 0 then 8 else 0) - 8 * n) % 16 == 0
  {
    var a, h := s / 16, n / 2;
    assert s - s % 16 == 16 * a;
    if n % 2 == 0 {
      assert 8 * n == 16 * h;
      assert 16 * a - 16 * h == 16 * (a - h);
    } else {
      assert 8 * n == 16 * h + 8;
      assert 16 * a - 8 - 8 * n == 16 * (a - h - 1);
    }
  }

  lemma SpAligned(top: nat, argv: seq<Text>, envp: seq<Text>)
    ensures InitialSp(top, argv, envp) % 16 == 0
    ensures InitialSp(top, argv, envp) + WordBytes(argv, envp) <= StringsAt(top, argv, envp)
  {
    WordsAligned(StringsAt(top, argv, envp), |argv| + |envp| + 3);
    assert WordBytes(argv, envp) == 8 * (|argv| + |envp| + 3);
  }

  /** The words at sp: argc, the argument pointers and a null, the environment pointers and a null. The
      argument strings start at address at, the environment strings at et. */
  function Words(argv: seq<Text>, at: nat, envp: seq<Text>, et: nat): (r: seq<Byte>)
    requires |argv| < WORD && at + |Blob(argv)| < WORD && et + |Blob(envp)| < WORD
    ensures |r| == WordBytes(argv, envp)
  {
    Low(|argv|, 8) + Packed(Pointers(argv, at)) + Packed(Pointers(envp, et))
  }

  lemma HasThree(m: seq<Byte>, k: nat, a: seq<Byte>, b: seq<Byte>, c: seq<Byte>)
    requires Has(m, k, a + b + c)
    ensures Has(m, k, a) && Has(m, k + |a|, b) && Has(m, k + |a| + |b|, c)
  {
    HasParts(m, k, a + b, c);
    HasParts(m, k, a, b);
  }

  lemma HasWords(m: seq<Byte>, k: nat, argv: seq<Text>, at: nat, envp: seq<Text>, et: nat)
    requires |argv| < WORD && at + |Blob(argv)| < WORD && et + |Blob(envp)| < WORD
    requires Has(m, k, Words(argv, at, envp, et))
    ensures WordAt(m, k) == Some(|argv|)
    ensures Has(m, k + 8, Packed(Pointers(argv, at)))
    ensures Has(m, k + 8 + 8 * (|argv| + 1), Packed(Pointers(envp, et)))
  {
    HasThree(m, k, Low(|argv|, 8), Packed(Pointers(argv, at)), Packed(Pointers(envp, et)));
    WordRead(m, k, |argv|);
  }

  lemma ArgumentsFrom(m: seq<Byte>, base: nat, sp: nat, argv: seq<Text>, envp: seq<Text>, k: nat)
    requires base <= sp && k == sp - base + 8 && WordAt(m, sp - base) == Some(|argv|)
    requires TextsAt(m, base, k) == Some(argv) && TextsAt(m, base, k + 8 * (|argv| + 1)) == Some(envp)
    ensures ReadArguments(m, base, sp) == Some((argv, envp))
  {
  }

  lemma ListsReadBack(m: seq<Byte>, base: nat, sp: nat, argv: seq<Text>, at: nat, envp: seq<Text>, et: nat)
    requires 0 < base <= sp && base <= at && base <= et
    requires at + |Blob(argv)| < WORD && et + |Blob(envp)| < WORD
    requires WordAt(m, sp - base) == Some(|argv|)
    requires Has(m, sp - base + 8, Packed(Pointers(argv, at))) && Has(m, at - base, Blob(argv))
    requires Has(m, sp - base + 8 + 8 * (|argv| + 1), Packed(Pointers(envp, et))) && Has(m, et - base, Blob(envp))
    ensures ReadArguments(m, base, sp) == Some((argv, envp))
  {
    var k := sp - base + 8;
    TextsRead(m, base, k, argv, at);
    TextsRead(m, base, k + 8 * (|argv| + 1), envp, et);
    ArgumentsFrom(m, base, sp, argv, envp, k);
  }

  /** Any memory that holds the words at sp and the strings at their places reads back as the arguments. */
  lemma FrameReadsBack(m: seq<Byte>, base: nat, sp: nat, argv: seq<Text>, at: nat, envp: seq<Text>, et: nat)
    requires 0 < base <= sp && base <= at && base <= et
    requires |argv| < WORD && at + |Blob(argv)| < WORD && et + |Blob(envp)| < WORD
    requires Has(m, sp - base, Words(argv, at, envp, et))
    requires Has(m, at - base, Blob(argv)) && Has(m, et - base, Blob(envp))
    ensures ReadArguments(m, base, sp) == Some((argv, envp))
  {
    HasWords(m, sp - base, argv, at, envp, et);
    ListsReadBack(m, base, sp, argv, at, envp, et);
  }

  // ---------------------------------------------------------------- what a program finds

  /** The word at index k of memory is a pointer to the string s. */
  ghost predicate PointsTo(m: seq<Byte>, base: nat, k: nat, s: Text)
  {
    exists p :: p >= base && p != 0 && WordAt(m, k) == Some(p) && TextAt(m, p - base) == Some(s)
  }

  /** A pointer list of these strings, ended by a null pointer. */
  ghost predicate Lists(m: seq<Byte>, base: nat, k: nat, ss: seq<Text>)
  {
    WordAt(m, k + 8 * |ss|) == Some(0) && forall i :: 0 <= i < |ss| ==> PointsTo(m, base, k + 8 * i, ss[i])
  }

  lemma {:induction false} TextsPoint(m: seq<Byte>, base: nat, k: nat, ss: seq<Text>, i: nat)
    requires TextsAt(m, base, k) == Some(ss) && i < |ss|
    ensures PointsTo(m, base, k + 8 * i, ss[i])
    decreases i
  {
    if i > 0 {
      TextsPoint(m, base, k + 8, ss[1..], i - 1);
      assert k + 8 + 8 * (i - 1) == k + 8 * i;
    }
  }

  lemma {:induction false} TextsEnd(m: seq<Byte>, base: nat, k: nat, ss: seq<Text>)
    requires TextsAt(m, base, k) == Some(ss)
    ensures WordAt(m, k + 8 * |ss|) == Some(0)
    decreases |ss|
  {
    if ss != [] {
      TextsEnd(m, base, k + 8, ss[1..]);
    }
  }

  lemma TextsList(m: seq<Byte>, base: nat, k: nat, ss: seq<Text>)
    requires TextsAt(m, base, k) == Some(ss)
    ensures Lists(m, base, k, ss)
  {
    TextsEnd(m, base, k, ss);
    forall i | 0 <= i < |ss| ensures PointsTo(m, base, k + 8 * i, ss[i]) {
      TextsPoint(m, base, k, ss, i);
    }
  }

  /** The argument count is at the stack pointer, the pointers to the arguments and a null follow it, and behind
      them the pointers to the environment and a null. */
  lemma ArgumentsLayout(m: seq<Byte>, base: nat, sp: nat, argv: seq<Text>, envp: seq<Text>)
    requires base <= sp && ReadArguments(m, base, sp) == Some((argv, envp))
    ensures WordAt(m, sp - base) == Some(|argv|)
    ensures Lists(m, base, sp - base + 8, argv)
    ensures Lists(m, base, sp - base + 8 + 8 * (|argv| + 1), envp)
  {
    TextsList(m, base, sp - base + 8, argv);
    TextsList(m, base, sp - base + 8 + 8 * (|argv| + 1), envp);
  }
}
