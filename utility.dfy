/** The escape expander of utility.h: `expand_escapes` turns a text with
    C-like escapes (standard ones such as `\n`, `\xHH` in hexadecimal and
    up to three decimal digits) into the characters they stand for, either
    into a bounded buffer or, without one, only measuring the result. */
module Utility {
  import opened Bytes

  /** `isdigit` on the characters of ASCII. */
  predicate IsDigit(c: char)
  {
    '0' <= c <= '9'
  }

  /** `isxdigit` on the characters of ASCII. */
  predicate IsXDigit(c: char)
  {
    IsDigit(c) || 'a' <= c <= 'f' || 'A' <= c <= 'F'
  }

  /** The value of a decimal digit. */
  function Digit(c: char): (d: nat)
    requires IsDigit(c)
    ensures d < 10
  {
    c as int - '0' as int
  }

  /** `nibble`: the value of a hexadecimal digit, 0 for any other character. */
  function Nibble(c: char): (v: nat)
    ensures v < 16
    ensures !IsXDigit(c) ==> v == 0
  {
    if '0' <= c <= '9' then c as int - '0' as int
    else if 'a' <= c <= 'f' then 10 + c as int - 'a' as int
    else if 'A' <= c <= 'F' then 10 + c as int - 'A' as int
    else 0
  }

  /** The hexadecimal digit of a value below 16, upper or lower case. */
  function HexDigit(v: nat, upper: bool): (c: char)
    requires v < 16
    ensures IsXDigit(c)
  {
    if v < 10 then ('0' as int + v) as char
    else if upper then ('A' as int + v - 10) as char
    else ('a' as int + v - 10) as char
  }

  /** Nibble reads back every digit HexDigit writes, and every hexadecimal
      digit is written by HexDigit. */
  lemma NibbleInverse(v: nat, upper: bool, c: char)
    requires v < 16
    ensures Nibble(HexDigit(v, upper)) == v
    ensures IsXDigit(c) ==> HexDigit(Nibble(c), 'A' <= c <= 'F') == c
  {
  }

  /** `enum escape_err`. */
  datatype EscErr = NoError | EscError | EscErrorChar | EscErrorHex | EscErrorDec

  /** The enum value of each error. */
  function Code(e: EscErr): (n: int)
    ensures 0 <= n <= 4 && (n == 0 <==> e == NoError)
  {
    match e
    case NoError => 0
    case EscError => 1
    case EscErrorChar => 2
    case EscErrorHex => 3
    case EscErrorDec => 4
  }

  /** The standard escapes: the character a supported letter after a
      backslash stands for, None for any other character. */
  function StdEscape(e: char): (r: Option<char>)
    ensures r.Some? <==> e in "abfnrtv\"\\"
  {
    match e
    case 'a' => Some(7 as char)
    case 'b' => Some(8 as char)
    case 'f' => Some(12 as char)
    case 'n' => Some(10 as char)
    case 'r' => Some(13 as char)
    case 't' => Some(9 as char)
    case 'v' => Some(11 as char)
    case '"' => Some('"')
    case '\\' => Some('\\')
    case _ => None
  }

  /** How many decimal digits follow in a row from `i`, stopping at `max`. */
  function DigitRun(s: seq<char>, i: nat, max: nat): (n: nat)
    ensures n <= max && (n > 0 ==> i + n <= |s|)
    ensures forall k :: i <= k < i + n ==> IsDigit(s[k])
    decreases max
  {
    if max == 0 || i >= |s| || !IsDigit(s[i]) then 0
    else 1 + DigitRun(s, i + 1, max - 1)
  }

  /** The value of the `n` decimal digits from `i`. */
  function DecValue(s: seq<char>, i: nat, n: nat): (v: nat)
    requires i + n <= |s|
    requires forall k :: i <= k < i + n ==> IsDigit(s[k])
  {
    if n == 0 then 0 else 10 * DecValue(s, i, n - 1) + Digit(s[i + n - 1])
  }

  /** One step of the expansion: the character the input at `rp` stands for
      and where the next one starts, or the error found there. */
  datatype Token = Char(c: char, next: nat) | Fail(e: EscErr)

  /** The body of the loop of `expand_escapes` at `rp`: any character but a
      backslash stands for itself; a backslash at the very end is
      ESC_ERROR; `\x` needs two hexadecimal digits (ESC_ERROR_HEX); a
      decimal escape takes up to three digits and must not exceed 255
      (ESC_ERROR_DEC); any other character than the nine of StdEscape is
      ESC_ERROR_CHAR. */
  function TokenAt(s: seq<char>, rp: nat): (t: Token)
    requires rp < |s|
    ensures t.Char? ==> rp < t.next <= |s| && (t.c as int < 256 || s[rp] != '\\')
    ensures t.Fail? ==> t.e != NoError
    ensures s[rp] != '\\' ==> t == Char(s[rp], rp + 1)
  {
    if s[rp] != '\\' then Char(s[rp], rp + 1)
    else if rp + 1 >= |s| then Fail(EscError)
    else if s[rp + 1] == 'x' then
      if rp + 3 < |s| && IsXDigit(s[rp + 2]) && IsXDigit(s[rp + 3]) then
        Char((Nibble(s[rp + 2]) * 16 + Nibble(s[rp + 3])) as char, rp + 4)
      else Fail(EscErrorHex)
    else if IsDigit(s[rp + 1]) then
      var n := 1 + DigitRun(s, rp + 2, 2);
      var v := DecValue(s, rp + 1, n);
      if v > 255 then Fail(EscErrorDec) else Char(v as char, rp + 1 + n)
    else
      match StdEscape(s[rp + 1])
      case None => Fail(EscErrorChar)
      case Some(c) => Char(c, rp + 2)
  }

  /** Where an expansion stopped with an error: its kind and the input
      position of the escape. */
  datatype Failure = Failure(kind: EscErr, pos: nat)

  /** What an expansion writes, and the error it stopped at, if any. */
  datatype Expansion = Expansion(out: seq<char>, fail: Option<Failure>)

  /** The room left after one more character: a bounded room shrinks. */
  function Less(room: Option<nat>): Option<nat>
  {
    match room
    case None => None
    case Some(n) => Some(if n == 0 then 0 else n - 1)
  }

  /** `expand_escapes` from `rp` on, with room for `room` more characters,
      or, with None, without a buffer: the loop goes on while input is left
      and the buffer is not full. */
  function ExpandAt(s: seq<char>, rp: nat, room: Option<nat>): (x: Expansion)
    ensures x.fail.Some? ==> rp <= x.fail.value.pos < |s| && x.fail.value.kind != NoError
    ensures room.Some? ==> |x.out| <= room.value
    decreases |s| - rp, 1
  {
    if rp >= |s| || room == Some(0) then Expansion([], None) else ExpandFrom(s, rp, room)
  }

  /** ExpandAt where input and room are left: the token at `rp`, then the
      rest. */
  function ExpandFrom(s: seq<char>, rp: nat, room: Option<nat>): (x: Expansion)
    requires rp < |s| && room != Some(0)
    ensures x.fail.Some? ==> rp <= x.fail.value.pos < |s| && x.fail.value.kind != NoError
    ensures room.Some? ==> |x.out| <= room.value
    decreases |s| - rp, 0
  {
    match TokenAt(s, rp)
    case Fail(e) => Expansion([], Some(Failure(e, rp)))
    case Char(c, next) =>
      var rest := ExpandAt(s, next, Less(room));
      Expansion([c] + rest.out, rest.fail)
  }

  /** The scan of one character or escape in the loop of `expand_escapes`:
      the token at `rp0`. */
  method ScanToken(input: seq<char>, rp0: nat) returns (t: Token)
    requires rp0 < |input|
    ensures t == TokenAt(input, rp0)
  {
    var rp := rp0;
    var c := input[rp];
    rp := rp + 1;
    if c == '\\' {
      if rp >= |input| {
        return Fail(EscError);
      }
      if input[rp] == 'x' {
        if rp + 2 < |input| && IsXDigit(input[rp + 1]) && IsXDigit(input[rp + 2]) {
          // `(nibble(hi) << 4) | nibble(lo)`, with both nibbles below 16
          c := (Nibble(input[rp + 1]) * 16 + Nibble(input[rp + 2])) as char;
          rp := rp + 3;
        } else {
          return Fail(EscErrorHex);
        }
      } else if IsDigit(input[rp]) {
        ghost var first := rp;
        var decval := Digit(input[rp]);
        rp := rp + 1;
        assert decval == DecValue(input, first, 1);
        if rp < |input| && IsDigit(input[rp]) {
          decval := decval * 10 + Digit(input[rp]);
          rp := rp + 1;
        }
        assert decval == DecValue(input, first, rp - first);
        if rp < |input| && IsDigit(input[rp]) {
          decval := decval * 10 + Digit(input[rp]);
          rp := rp + 1;
        }
        assert rp - first == 1 + DigitRun(input, first + 1, 2);
        assert decval == DecValue(input, first, rp - first);
        if decval > 255 {
          return Fail(EscErrorDec);
        }
        c := decval as char;
      } else {
        match StdEscape(input[rp])
        case None =>
          return Fail(EscErrorChar);
        case Some(e) =>
          c := e;
          rp := rp + 1;
      }
    }
    return Char(c, rp);
  }

  /** The room a buffer gives: none without a buffer, else its length. */
  function Room(bounded: bool, dlen: nat): Option<nat>
  {
    if bounded then Some(dlen) else None
  }

  /** `expand_escapes`, with the error returned rather than stored through
      `err`. Without a buffer it returns the length of the full expansion,
      with one the number of characters written, at most `dlen`; on an
      error it returns the input position of the escape and its code. The
      buffer holds the expansion in front, untouched after it. */
  method ExpandEscapes(input: seq<char>, dest: array?<char>, dlen: nat) returns (r: nat, err: int)
    requires dest != null ==> dlen <= dest.Length
    modifies dest
    ensures var x := ExpandAt(input, 0, Room(dest != null, dlen));
      (x.fail.None? ==> r == |x.out| && err == 0) &&
      (x.fail.Some? ==> r == x.fail.value.pos && err == Code(x.fail.value.kind))
    ensures dest != null ==> Filled(dest[..], old(dest[..]), ExpandAt(input, 0, Room(dest != null, dlen)).out)
  {
    ghost var left := Room(dest != null, dlen);
    ghost var whole := ExpandAt(input, 0, left);
    ghost var before: seq<char> := if dest == null then [] else dest[..];
    ghost var out: seq<char> := [];
    var rp := 0;
    var wp := 0;
    while rp < |input| && (wp < dlen || dest == null)
      invariant wp == |out|
      invariant dest == null ==> left == None
      invariant dest != null ==> wp <= dlen && left == Some(dlen - wp)
      invariant Pending(whole, input, rp, left, out)
      invariant dest != null ==> Filled(dest[..], before, out)
      decreases |input| - rp
    {
      var rp_start := rp;
      var t := ScanToken(input, rp);
      if t.Fail? {
        ExpandStops(whole, input, rp, left, out);
        return rp_start, Code(t.e);
      }
      var c := t.c;
      rp := t.next;
      PutChar(dest, dlen, wp, c, out, before);
      ExpandKeeps(whole, input, rp_start, left, out);
      out := out + [c];
      left := Less(left);
      wp := wp + 1;
    }
    ExpandEnds(whole, input, rp, left, out);
    return wp, 0;
  }

  /** The buffer `after` holds `out` in front and, behind it, what it held
      `before`. */
  ghost predicate Filled(after: seq<char>, before: seq<char>, out: seq<char>)
  {
    |out| <= |before| == |after| && after == out + before[|out|..]
  }

  /** The write of the loop: into the buffer, when there is one and it has
      room, the character at `wp`, behind the expansion so far. */
  method PutChar(dest: array?<char>, dlen: nat, wp: nat, c: char, ghost out: seq<char>, ghost before: seq<char>)
    requires dest != null ==> wp == |out| && wp < dlen <= dest.Length
    requires dest != null ==> Filled(dest[..], before, out)
    modifies dest
    ensures dest != null ==> Filled(dest[..], before, out + [c])
  {
    if dest != null && dlen > 0 {
      if wp < dlen {
        dest[wp] := c;
      }
    }
  }

  /** The expansion `whole` is `out` followed by the expansion from `rp`
      with room `left`. */
  ghost predicate Pending(whole: Expansion, s: seq<char>, rp: nat, left: Option<nat>, out: seq<char>)
  {
    var rest := ExpandAt(s, rp, left);
    whole == Expansion(out + rest.out, rest.fail)
  }

  /** A character taken keeps Pending. */
  lemma ExpandKeeps(whole: Expansion, s: seq<char>, rp: nat, left: Option<nat>, out: seq<char>)
    requires rp < |s| && left != Some(0) && TokenAt(s, rp).Char?
    requires Pending(whole, s, rp, left, out)
    ensures Pending(whole, s, TokenAt(s, rp).next, Less(left), out + [TokenAt(s, rp).c])
  {
    var t := TokenAt(s, rp);
    var rest := ExpandAt(s, t.next, Less(left));
    assert ExpandAt(s, rp, left) == Expansion([t.c] + rest.out, rest.fail);
    assert out + ([t.c] + rest.out) == (out + [t.c]) + rest.out;
  }

  /** An error found stops the expansion with what was written so far. */
  lemma ExpandStops(whole: Expansion, s: seq<char>, rp: nat, left: Option<nat>, out: seq<char>)
    requires rp < |s| && left != Some(0) && TokenAt(s, rp).Fail?
    requires Pending(whole, s, rp, left, out)
    ensures whole == Expansion(out, Some(Failure(TokenAt(s, rp).e, rp)))
  {
    assert ExpandAt(s, rp, left) == Expansion([], Some(Failure(TokenAt(s, rp).e, rp)));
    assert out + [] == out;
  }

  /** The end of the input, or of the room, ends the expansion. */
  lemma ExpandEnds(whole: Expansion, s: seq<char>, rp: nat, left: Option<nat>, out: seq<char>)
    requires rp >= |s| || left == Some(0)
    requires Pending(whole, s, rp, left, out)
    ensures whole == Expansion(out, None)
  {
  }

  // ---------------------------------------------------------------------------
  // Properties

  /** A buffer of `n` characters receives the first `n` characters of the
      unbounded expansion and sees its error only when the error comes
      before the buffer is full: measuring without a buffer and then
      expanding into one at least that long writes exactly what was
      measured. */
  lemma {:induction false} ExpandPrefix(s: seq<char>, rp: nat, n: nat)
    ensures var u := ExpandAt(s, rp, None); var b := ExpandAt(s, rp, Some(n));
      b.out == u.out[..if n < |u.out| then n else |u.out|] &&
      b.fail == (if n > |u.out| then u.fail else None)
    decreases |s| - rp
  {
    if rp < |s| && n > 0 {
      match TokenAt(s, rp)
      case Fail(_) =>
      case Char(c, next) =>
        ExpandPrefix(s, next, n - 1);
        var u := ExpandAt(s, next, None);
        var m := if n - 1 < |u.out| then n - 1 else |u.out|;
        assert ([c] + u.out)[..m + 1] == [c] + u.out[..m];
    }
  }

  /** A text without a backslash expands to itself. */
  lemma {:induction false} PlainText(s: seq<char>, rp: nat)
    requires rp <= |s|
    requires forall k :: rp <= k < |s| ==> s[k] != '\\'
    ensures ExpandAt(s, rp, None) == Expansion(s[rp..], None)
    decreases |s| - rp
  {
    if rp < |s| {
      PlainText(s, rp + 1);
      assert s[rp..] == [s[rp]] + s[rp + 1..];
    }
  }

  /** `\xHH` for a character below 256, with the digits in either case. */
  function HexEscape(c: char, upper: bool): (e: seq<char>)
    requires c as int < 256
    ensures |e| == 4
  {
    ['\\', 'x', HexDigit(c as int / 16, upper), HexDigit(c as int % 16, upper)]
  }

  /** Every character of a text as a hexadecimal escape. */
  function HexEscaped(t: seq<char>, upper: bool): (e: seq<char>)
    requires forall k :: 0 <= k < |t| ==> t[k] as int < 256
    ensures |e| == 4 * |t|
  {
    if t == [] then [] else HexEscape(t[0], upper) + HexEscaped(t[1..], upper)
  }

  /** The escape of `t[i]` sits at `4 * i` in HexEscaped. */
  lemma {:induction false} HexEscapedAt(t: seq<char>, upper: bool, i: nat)
    requires forall k :: 0 <= k < |t| ==> t[k] as int < 256
    requires i < |t|
    ensures forall j :: 0 <= j < 4 ==> HexEscaped(t, upper)[4 * i + j] == HexEscape(t[i], upper)[j]
  {
    if i > 0 {
      HexEscapedAt(t[1..], upper, i - 1);
    }
  }

  /** A hexadecimal escape expands to the character it was made from. */
  lemma HexToken(s: seq<char>, rp: nat, c: char, upper: bool)
    requires c as int < 256 && rp + 4 <= |s|
    requires forall j :: 0 <= j < 4 ==> s[rp + j] == HexEscape(c, upper)[j]
    ensures TokenAt(s, rp) == Char(c, rp + 4)
  {
    NibbleInverse(c as int / 16, upper, 'x');
    NibbleInverse(c as int % 16, upper, 'x');
    assert s[rp + 0] == HexEscape(c, upper)[0] && s[rp + 1] == HexEscape(c, upper)[1];
    assert s[rp + 2] == HexEscape(c, upper)[2] && s[rp + 3] == HexEscape(c, upper)[3];
    assert Nibble(s[rp + 2]) * 16 + Nibble(s[rp + 3]) == c as int;
  }

  /** Round trip: escaping every character of a text in hexadecimal and
      expanding the result gives the text back, without an error. */
  lemma {:induction false} HexRoundTrip(t: seq<char>, upper: bool, i: nat)
    requires forall k :: 0 <= k < |t| ==> t[k] as int < 256
    requires i <= |t|
    ensures ExpandAt(HexEscaped(t, upper), 4 * i, None) == Expansion(t[i..], None)
    decreases |t| - i
  {
    if i < |t| {
      HexEscapedAt(t, upper, i);
      HexToken(HexEscaped(t, upper), 4 * i, t[i], upper);
      HexRoundTrip(t, upper, i + 1);
      assert t[i..] == [t[i]] + t[i + 1..];
    }
  }

  /** A decimal escape of three digits expands to their value when it is at
      most 255, and is ESC_ERROR_DEC above. */
  lemma DecimalToken(s: seq<char>, rp: nat)
    requires rp + 4 <= |s| && s[rp] == '\\'
    requires IsDigit(s[rp + 1]) && IsDigit(s[rp + 2]) && IsDigit(s[rp + 3])
    ensures var v := 100 * Digit(s[rp + 1]) + 10 * Digit(s[rp + 2]) + Digit(s[rp + 3]);
      TokenAt(s, rp) == if v > 255 then Fail(EscErrorDec) else Char(v as char, rp + 4)
  {
    assert DigitRun(s, rp + 3, 1) == 1;
    assert DigitRun(s, rp + 2, 2) == 2;
    assert DecValue(s, rp + 1, 1) == Digit(s[rp + 1]);
    assert DecValue(s, rp + 1, 2) == 10 * Digit(s[rp + 1]) + Digit(s[rp + 2]);
  }

  /** Unbounded, ExpandAt takes the token at `rp` and goes on. */
  lemma TokenThen(s: seq<char>, rp: nat, c: char, next: nat)
    requires rp < |s| && TokenAt(s, rp) == Char(c, next)
    ensures ExpandAt(s, rp, None) == Expansion([c] + ExpandAt(s, next, None).out, ExpandAt(s, next, None).fail)
  {
  }

  /** The plain rows of the table in test_utility.c (measured without a
      buffer, each input expands without an error to the expected
      characters) and those with one escape. */
  lemma ShortExamples()
    ensures ExpandAt("", 0, None) == Expansion("", None)
    ensures ExpandAt("A", 0, None) == Expansion("A", None)
    ensures ExpandAt("\\xFF", 0, None) == Expansion([255 as char], None)
    ensures ExpandAt("\\0", 0, None) == Expansion([0 as char], None)
    ensures ExpandAt("\\\"", 0, None) == Expansion("\"", None)
  {
    TokenThen("A", 0, 'A', 1);
    TokenThen("\\xFF", 0, 255 as char, 4);
    assert DigitRun("\\0", 2, 2) == 0;
    TokenThen("\\0", 0, 0 as char, 2);
    TokenThen("\\\"", 0, '"', 2);
  }

  /** The row of test_utility.c with a hexadecimal escape between plain
      characters. */
  lemma HexExample(s: seq<char>)
    requires s == "A\\x40A"
    ensures ExpandAt(s, 0, None) == Expansion("A@A", None)
  {
    TokenThen(s, 5, 'A', 6);
    TokenThen(s, 1, '@', 5);
    TokenThen(s, 0, 'A', 1);
  }

  /** The row of test_utility.c with decimal escapes of one, two and three
      digits. */
  lemma DecimalExample(s: seq<char>)
    requires s == "\\1\\32\\128"
    ensures ExpandAt(s, 0, None) == Expansion([1 as char, 32 as char, 128 as char], None)
  {
    DecimalToken(s, 5);
    TokenThen(s, 5, 128 as char, 9);
    DecimalTwoThen(s, 2);
    DecimalOneThen(s, 0);
  }

  /** Unbounded, a decimal escape of one digit, not followed by another,
      expands to its value, and the expansion goes on behind it. */
  lemma DecimalOneThen(s: seq<char>, rp: nat)
    requires rp + 2 <= |s| && s[rp] == '\\' && IsDigit(s[rp + 1])
    requires rp + 2 == |s| || !IsDigit(s[rp + 2])
    ensures var rest := ExpandAt(s, rp + 2, None);
      ExpandAt(s, rp, None) == Expansion([Digit(s[rp + 1]) as char] + rest.out, rest.fail)
  {
    assert DigitRun(s, rp + 2, 2) == 0;
    assert DecValue(s, rp + 1, 1) == Digit(s[rp + 1]);
    assert TokenAt(s, rp) == Char(Digit(s[rp + 1]) as char, rp + 2);
  }

  /** Unbounded, a decimal escape of two digits, not followed by a third,
      expands to their value, and the expansion goes on behind it. */
  lemma DecimalTwoThen(s: seq<char>, rp: nat)
    requires rp + 3 <= |s| && s[rp] == '\\' && IsDigit(s[rp + 1]) && IsDigit(s[rp + 2])
    requires rp + 3 == |s| || !IsDigit(s[rp + 3])
    ensures var rest := ExpandAt(s, rp + 3, None);
      ExpandAt(s, rp, None) == Expansion([(10 * Digit(s[rp + 1]) + Digit(s[rp + 2])) as char] + rest.out, rest.fail)
  {
    assert DigitRun(s, rp + 3, 1) == 0;
    assert DigitRun(s, rp + 2, 2) == 1;
    assert DecValue(s, rp + 1, 1) == Digit(s[rp + 1]);
    assert TokenAt(s, rp) == Char((10 * Digit(s[rp + 1]) + Digit(s[rp + 2])) as char, rp + 3);
  }

  /** Unbounded, a backslash and one of the nine letters of StdEscape
      expand to the letter's character, and the expansion goes on behind
      them. */
  lemma StdThen(s: seq<char>, rp: nat, e: char, c: char)
    requires rp + 1 < |s| && s[rp] == '\\' && s[rp + 1] == e && StdEscape(e) == Some(c)
    ensures ExpandAt(s, rp, None) == Expansion([c] + ExpandAt(s, rp + 2, None).out, ExpandAt(s, rp + 2, None).fail)
  {
    assert TokenAt(s, rp) == Char(c, rp + 2);
  }

  /** The row of standard escapes in test_utility.c. */
  lemma StandardExample(s: seq<char>)
    requires s == "\\a\\b\\f\\n\\r\\t\\v"
    ensures ExpandAt(s, 0, None) ==
      Expansion([7 as char, 8 as char, 12 as char, 10 as char, 13 as char, 9 as char, 11 as char], None)
  {
    var t := [7 as char, 8 as char, 12 as char, 10 as char, 13 as char, 9 as char, 11 as char];
    forall k | 0 <= k < |t|
      ensures s[2 * k] == '\\' && StdEscape(s[2 * k + 1]) == Some(t[k])
    {
      if k == 0 {} else if k == 1 {} else if k == 2 {} else if k == 3 {} else if k == 4 {} else if k == 5 {}
    }
    StandardEscapes(s, t, 0);
  }

  /** A text made of standard escapes only, a backslash at every even
      position and one of the nine letters of StdEscape behind it, expands
      escape by escape to the characters StdEscape gives. */
  lemma {:induction false} StandardEscapes(s: seq<char>, t: seq<char>, i: nat)
    requires |s| == 2 * |t| && i <= |t|
    requires forall k :: 0 <= k < |t| ==> s[2 * k] == '\\' && StdEscape(s[2 * k + 1]) == Some(t[k])
    ensures ExpandAt(s, 2 * i, None) == Expansion(t[i..], None)
    decreases |t| - i
  {
    if i < |t| {
      assert s[2 * i] == '\\' && StdEscape(s[2 * i + 1]) == Some(t[i]);
      StdThen(s, 2 * i, s[2 * i + 1], t[i]);
      StandardEscapes(s, t, i + 1);
      assert 2 * (i + 1) == 2 * i + 2;
      assert t[i..] == [t[i]] + t[i + 1..];
    }
  }

  /** The failing rows of the table in test_utility.c with a bad
      hexadecimal escape, each reporting ESC_ERROR_HEX at position 0. */
  lemma HexErrorExamples()
    ensures ExpandAt("\\x", 0, None).fail == Some(Failure(EscErrorHex, 0))
    ensures ExpandAt("\\x8", 0, None).fail == Some(Failure(EscErrorHex, 0))
    ensures ExpandAt("\\xfz", 0, None).fail == Some(Failure(EscErrorHex, 0))
  {
  }

  /** The other failing rows of the table in test_utility.c: a lone
      backslash, a decimal value above 255 and an unknown escape letter. */
  lemma ErrorExamples(lone: seq<char>, large: seq<char>, unknown: seq<char>)
    requires lone == "\\" && large == "\\256" && unknown == "\\?"
    ensures ExpandAt(lone, 0, None).fail == Some(Failure(EscError, 0))
    ensures ExpandAt(large, 0, None).fail == Some(Failure(EscErrorDec, 0))
    ensures ExpandAt(unknown, 0, None).fail == Some(Failure(EscErrorChar, 0))
  {
    DecimalToken(large, 0);
    assert StdEscape('?') == None;
  }
}
