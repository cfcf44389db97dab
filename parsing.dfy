/**
 * Parsing: `buildOrder`, which turns one input line into an `Order`.
 *
 * The line is trimmed at the end, split on runs of regular-expression white
 * space (`\s+`), and its five tokens become the order ID, the side (matched
 * case-insensitively), the instrument symbol (upper-cased), the quantity
 * (`String.toInt`) and the price (`String.toFloat`). Every failure surfaces as
 * a `BuildOrderException`. The clock reading and the float parser are
 * parameters.
 */
module Parsing {
  import opened Results
  import opened Orders

  // ---------------------------------------------------------------------------
  // Characters
  // ---------------------------------------------------------------------------

  /**
   * Kotlin's `Char.isWhitespace`: Java's `Character.isWhitespace` (the ASCII
   * controls TAB..CR and FS..US, the space separators other than the no-break
   * ones, and the line and paragraph separators) together with
   * `Character.isSpaceChar` (every space separator, the no-break ones included).
   */
  predicate IsWhitespace(c: char)
  {
    || ('\t' <= c <= '\r')
    || ('\U{1C}' <= c <= ' ')
    || c == '\U{A0}' || c == '\U{1680}'
    || ('\U{2000}' <= c <= '\U{200A}')
    || c == '\U{2028}' || c == '\U{2029}' || c == '\U{202F}' || c == '\U{205F}' || c == '\U{3000}'
  }

  /** The `\s` class of `java.util.regex` without the Unicode flag: space, TAB, LF, VT, FF, CR. */
  predicate IsRegexSpace(c: char)
  {
    c == ' ' || c == '\t' || c == '\n' || c == '\U{0B}' || c == '\U{0C}' || c == '\r'
  }

  /** Every character the regular expression splits on is also trimmed by `trimEnd`. */
  lemma RegexSpaceIsWhitespace(c: char)
    requires IsRegexSpace(c)
    ensures IsWhitespace(c)
  {
  }

  /** `isNullOrBlank` on a non-null line: nothing but white space, the empty line included. */
  predicate IsBlank(s: string)
  {
    forall i :: 0 <= i < |s| ==> IsWhitespace(s[i])
  }

  /** No character of `s` is one the regular expression splits on. */
  predicate NoRegexSpace(s: string)
  {
    forall i :: 0 <= i < |s| ==> !IsRegexSpace(s[i])
  }

  // ---------------------------------------------------------------------------
  // trimEnd
  // ---------------------------------------------------------------------------

  /**
   * `trimEnd()`: the longest prefix of `s` that does not end in white space;
   * what it drops is white space only.
   */
  function TrimEnd(s: string): (r: string)
    ensures |r| <= |s| && r == s[..|r|]
    ensures r == [] || !IsWhitespace(r[|r| - 1])
    ensures forall i :: |r| <= i < |s| ==> IsWhitespace(s[i])
  {
    if s != [] && IsWhitespace(s[|s| - 1]) then TrimEnd(s[..|s| - 1]) else s
  }

  /** A line is blank exactly when trimming its end leaves nothing. */
  lemma BlankIffTrimmedEmpty(s: string)
    ensures IsBlank(s) <==> TrimEnd(s) == []
  {
    var r := TrimEnd(s);
    if r != [] {
      assert !IsWhitespace(s[|r| - 1]);
    }
  }

  /** Trimming keeps a line that ends in a non-white-space character unchanged, and is idempotent. */
  lemma TrimEndKeeps(s: string)
    ensures s != [] && !IsWhitespace(s[|s| - 1]) ==> TrimEnd(s) == s
    ensures TrimEnd(TrimEnd(s)) == TrimEnd(s)
  {
  }

  // ---------------------------------------------------------------------------
  // split("\\s+".toRegex())
  // ---------------------------------------------------------------------------

  /** The index of the first splitting character, or `|s|` when there is none. */
  function FirstSpace(s: string): (i: nat)
    ensures i <= |s|
    ensures NoRegexSpace(s[..i])
    ensures i < |s| ==> IsRegexSpace(s[i])
  {
    if s == [] || IsRegexSpace(s[0]) then 0
    else
      var i := 1 + FirstSpace(s[1..]);
      assert s[..i] == [s[0]] + s[1..][..i - 1];
      i
  }

  /** What follows a run of splitting characters at the front of `s`: a greedy `\s+` match ends there. */
  function SkipSpaces(s: string): (t: string)
    ensures |t| <= |s| && t == s[|s| - |t|..]
    ensures s != [] && IsRegexSpace(s[0]) ==> |t| < |s|
    ensures t == [] || !IsRegexSpace(t[0])
    ensures forall i :: 0 <= i < |s| - |t| ==> IsRegexSpace(s[i])
  {
    if s != [] && IsRegexSpace(s[0]) then SkipSpaces(s[1..]) else s
  }

  /**
   * Kotlin's `CharSequence.split(regex)` with `\s+` and no limit: the pieces
   * between maximal runs of splitting characters, keeping an empty first piece
   * when `s` starts with such a run and an empty last piece when it ends with
   * one. Input without a match is returned whole.
   */
  function Split(s: string): (ts: seq<string>)
    ensures |ts| >= 1
    ensures forall k :: 0 <= k < |ts| ==> NoRegexSpace(ts[k])
    decreases |s|
  {
    var i := FirstSpace(s);
    if i == |s| then
      assert s[..i] == s;
      [s]
    else
      [s[..i]] + Split(SkipSpaces(s[i..]))
  }

  /** A line that starts with a splitting character yields an empty first token. */
  lemma SplitLeadingSpace(s: string)
    requires s != [] && IsRegexSpace(s[0])
    ensures Split(s)[0] == []
  {
  }

  /** `ts` joined with the separator `sep` between neighbours. */
  function JoinWith(ts: seq<string>, sep: string): string
    requires |ts| >= 1
  {
    if |ts| == 1 then ts[0] else ts[0] + sep + JoinWith(ts[1..], sep)
  }

  /** The run of splitting characters at the front of `s`: what a greedy `\s+` match there consumes. */
  function Run(s: string): (r: string)
    ensures r + SkipSpaces(s) == s
    ensures forall j :: 0 <= j < |r| ==> IsRegexSpace(r[j])
    ensures s != [] && IsRegexSpace(s[0]) ==> Separator(r)
  {
    var n := |s| - |SkipSpaces(s)|;
    assert s[..n] + s[n..] == s;
    s[..n]
  }

  /** The runs of splitting characters that `Split` cuts out of `s`, in order. */
  function Gaps(s: string): seq<string>
    decreases |s|
  {
    var i := FirstSpace(s);
    if i == |s| then [] else [Run(s[i..])] + Gaps(SkipSpaces(s[i..]))
  }

  /** Tokens with one gap between each pair of neighbours. */
  function Interleave(ts: seq<string>, gs: seq<string>): string
    requires |ts| == |gs| + 1
    decreases |gs|
  {
    if gs == [] then ts[0] else ts[0] + (gs[0] + Interleave(ts[1..], gs[1..]))
  }

  /** There is one gap between each pair of neighbouring tokens, and each is a non-empty run of splitting characters. */
  lemma {:induction false} GapsShape(s: string)
    ensures |Gaps(s)| == |Split(s)| - 1
    ensures forall g :: g in Gaps(s) ==> Separator(g)
    decreases |s|
  {
    var i := FirstSpace(s);
    if i < |s| {
      var rest := SkipSpaces(s[i..]);
      GapsShape(rest);
      assert |Split(s)| == 1 + |Split(rest)|;
      assert Gaps(s) == [Run(s[i..])] + Gaps(rest);
    }
  }

  /**
   * Splitting loses nothing: the tokens of `s` with the cut-out runs put back
   * between them are `s` again. With the contract of `Split` (no token holds a
   * splitting character) and of `Gaps` (every gap is a non-empty run of them)
   * this pins the tokens down completely.
   */
  lemma {:induction false} SplitRejoins(s: string)
    ensures |Gaps(s)| == |Split(s)| - 1
    ensures Interleave(Split(s), Gaps(s)) == s
    decreases |s|
  {
    GapsShape(s);
    var i := FirstSpace(s);
    if i == |s| {
      assert s[..i] == s;
    } else {
      var rest := SkipSpaces(s[i..]);
      assert Interleave(Split(s), Gaps(s)) == s[..i] + (Run(s[i..]) + rest) by {
        SplitRejoins(rest);
        SplitStep(s);
        GapsStep(s);
        InterleaveCons(s[..i], Split(rest), Run(s[i..]), Gaps(rest));
      }
      RejoinFront(s, i);
    }
  }

  /** The first token, the run after it and what follows the run make up the whole string. */
  lemma RejoinFront(s: string, i: nat)
    requires i <= |s|
    ensures s[..i] + (Run(s[i..]) + SkipSpaces(s[i..])) == s
  {
    assert s[..i] + s[i..] == s;
  }

  /** One step of `Split`: the first token, then the tokens of what follows the first run. */
  lemma SplitStep(s: string)
    requires FirstSpace(s) < |s|
    ensures Split(s) == [s[..FirstSpace(s)]] + Split(SkipSpaces(s[FirstSpace(s)..]))
  {
  }

  /** One step of `Gaps`: the first run, then the runs of what follows it. */
  lemma GapsStep(s: string)
    requires FirstSpace(s) < |s|
    ensures Gaps(s) == [Run(s[FirstSpace(s)..])] + Gaps(SkipSpaces(s[FirstSpace(s)..]))
  {
  }

  /** Interleaving with one more token and gap in front. */
  lemma InterleaveCons(t: string, ts: seq<string>, g: string, gs: seq<string>)
    requires |ts| == |gs| + 1
    ensures Interleave([t] + ts, [g] + gs) == t + (g + Interleave(ts, gs))
  {
    assert ([t] + ts)[1..] == ts;
    assert ([g] + gs)[1..] == gs;
  }

  /**
   * Splitting inverts interleaving: tokens free of splitting characters, all
   * but the first non-empty, with any non-empty runs of splitting characters
   * between them, split back into the same tokens.
   */
  lemma {:induction false} SplitInterleave(ts: seq<string>, gs: seq<string>)
    requires |ts| == |gs| + 1
    requires forall k :: 0 <= k < |ts| ==> NoRegexSpace(ts[k])
    requires forall k :: 1 <= k < |ts| ==> ts[k] != []
    requires forall k :: 0 <= k < |gs| ==> Separator(gs[k])
    ensures Split(Interleave(ts, gs)) == ts
    decreases |gs|
  {
    if gs == [] {
      SplitToken(ts[0]);
    } else {
      SplitInterleave(ts[1..], gs[1..]);
      var rest := Interleave(ts[1..], gs[1..]);
      InterleaveFront(ts[1..], gs[1..]);
      SplitCons(ts[0], gs[0], rest);
      TokensCons(ts);
    }
  }

  /** An interleaving starts with the first character of its first token. */
  lemma InterleaveFront(ts: seq<string>, gs: seq<string>)
    requires |ts| == |gs| + 1 && ts[0] != []
    ensures Interleave(ts, gs) != [] && Interleave(ts, gs)[0] == ts[0][0]
  {
  }

  lemma {:induction false} FirstSpaceOfToken(a: string, b: string)
    requires NoRegexSpace(a)
    requires b == [] || IsRegexSpace(b[0])
    ensures FirstSpace(a + b) == |a|
  {
    if a != [] {
      assert (a + b)[1..] == a[1..] + b;
      FirstSpaceOfToken(a[1..], b);
    }
  }

  lemma {:induction false} SkipSeparator(sep: string, rest: string)
    requires forall i :: 0 <= i < |sep| ==> IsRegexSpace(sep[i])
    requires rest == [] || !IsRegexSpace(rest[0])
    ensures SkipSpaces(sep + rest) == rest
  {
    if sep != [] {
      assert (sep + rest)[1..] == sep[1..] + rest;
      SkipSeparator(sep[1..], rest);
    }
  }

  /**
   * Splitting inverts joining: tokens free of splitting characters, all but the
   * first non-empty, joined with a non-empty run of splitting characters, split
   * back into the same tokens.
   */
  lemma {:induction false} SplitJoin(ts: seq<string>, sep: string)
    requires |ts| >= 1
    requires forall k :: 0 <= k < |ts| ==> NoRegexSpace(ts[k])
    requires forall k :: 1 <= k < |ts| ==> ts[k] != []
    requires sep != [] && forall i :: 0 <= i < |sep| ==> IsRegexSpace(sep[i])
    ensures Split(JoinWith(ts, sep)) == ts
  {
    if |ts| == 1 {
      SplitToken(ts[0]);
    } else {
      SplitJoin(ts[1..], sep);
      SplitJoinStep(ts, sep);
    }
  }

  /** One token more in front: if the rest splits back, so does the whole join. */
  lemma SplitJoinStep(ts: seq<string>, sep: string)
    requires |ts| >= 2 && NoRegexSpace(ts[0]) && ts[1] != [] && !IsRegexSpace(ts[1][0])
    requires sep != [] && forall i :: 0 <= i < |sep| ==> IsRegexSpace(sep[i])
    requires Split(JoinWith(ts[1..], sep)) == ts[1..]
    ensures Split(JoinWith(ts, sep)) == ts
  {
    JoinedFront(ts, sep);
    SplitCons(ts[0], sep, JoinWith(ts[1..], sep));
    TokensCons(ts);
  }

  /** A token list is its first token followed by the rest. */
  lemma TokensCons(ts: seq<string>)
    requires ts != []
    ensures [ts[0]] + ts[1..] == ts
  {
  }

  /** A single token splits into itself. */
  lemma SplitToken(a: string)
    requires NoRegexSpace(a)
    ensures Split(a) == [a]
  {
    FirstSpaceOfToken(a, []);
    assert a + [] == a;
  }

  /** A join of two or more tokens is the first token, the separator and the join of the rest, which starts with the second token. */
  lemma JoinedFront(ts: seq<string>, sep: string)
    requires |ts| >= 2 && ts[1] != []
    ensures JoinWith(ts, sep) == ts[0] + (sep + JoinWith(ts[1..], sep))
    ensures JoinWith(ts[1..], sep)[0] == ts[1][0]
  {
    if |ts| > 2 {
      assert JoinWith(ts[1..], sep) == ts[1] + (sep + JoinWith(ts[2..], sep)) by {
        assert ts[1..][1..] == ts[2..];
      }
    }
  }

  /** A token, a run of splitting characters and a rest that starts with a token split into the token and the pieces of the rest. */
  lemma SplitCons(a: string, sep: string, rest: string)
    requires NoRegexSpace(a)
    requires sep != [] && forall i :: 0 <= i < |sep| ==> IsRegexSpace(sep[i])
    requires rest == [] || !IsRegexSpace(rest[0])
    ensures Split(a + (sep + rest)) == [a] + Split(rest)
  {
    var s := a + (sep + rest);
    FirstSpaceOfToken(a, sep + rest);
    assert s[..|a|] == a;
    assert s[|a|..] == sep + rest;
    SkipSeparator(sep, rest);
  }

  // ---------------------------------------------------------------------------
  // uppercase() and OrderSide.valueOf
  // ---------------------------------------------------------------------------

  /**
   * `Char.uppercaseChar` on the characters whose upper case is an ASCII letter:
   * a-z, dotless i (U+0131) and long s (U+017F). Every other character is kept.
   */
  function ToUpperChar(c: char): char
  {
    if 'a' <= c <= 'z' then (c as int - 'a' as int + 'A' as int) as char
    else if c == '\U{131}' then 'I'
    else if c == '\U{17F}' then 'S'
    else c
  }

  /** `String.uppercase()`, character by character. */
  function ToUpper(s: string): (r: string)
    ensures |r| == |s|
    ensures forall i :: 0 <= i < |s| ==> r[i] == ToUpperChar(s[i])
  {
    if s == [] then [] else [ToUpperChar(s[0])] + ToUpper(s[1..])
  }

  /** Upper-casing twice is upper-casing once. */
  lemma ToUpperIdempotent(s: string)
    ensures ToUpper(ToUpper(s)) == ToUpper(s)
  {
  }

  /** A string with no letter that has an upper case is its own upper case. */
  lemma ToUpperKeeps(s: string)
    requires forall i :: 0 <= i < |s| ==> ToUpperChar(s[i]) == s[i]
    ensures ToUpper(s) == s
  {
  }

  /** The enum constant's name. */
  function SideName(side: Side): string
  {
    if side == BUY then "BUY" else "SELL"
  }

  /** `OrderSide.valueOf(s.uppercase())`: `None` where `valueOf` throws. */
  function ParseSide(s: string): (r: Option<Side>)
  {
    var u := ToUpper(s);
    if u == SideName(BUY) then Some(BUY)
    else if u == SideName(SELL) then Some(SELL)
    else None
  }

  /**
   * The side is read case-insensitively: a token names `side` exactly when its
   * upper case is the constant's name, and a token and its upper case parse alike.
   */
  lemma ParseSideCaseInsensitive(s: string, side: Side)
    ensures ParseSide(s) == Some(side) <==> ToUpper(s) == SideName(side)
    ensures ParseSide(ToUpper(s)) == ParseSide(s)
  {
    ToUpperIdempotent(s);
  }

  lemma UpperBuy()
    ensures ToUpper("buy") == "BUY"
  {
    assert ToUpper("buy")[0] == 'B' && ToUpper("buy")[1] == 'U' && ToUpper("buy")[2] == 'Y';
  }

  lemma UpperSell()
    ensures ToUpper("sell") == "SELL"
  {
    assert ToUpper("sell")[0] == 'S' && ToUpper("sell")[1] == 'E';
    assert ToUpper("sell")[2] == 'L' && ToUpper("sell")[3] == 'L';
  }

  /** The constant's name parses to it, and so does its lower-case spelling. */
  lemma ParseSideNames(side: Side)
    ensures ParseSide(SideName(side)) == Some(side)
    ensures ParseSide(if side == BUY then "buy" else "sell") == Some(side)
  {
    ToUpperKeeps(SideName(side));
    if side == BUY {
      UpperBuy();
    } else {
      UpperSell();
    }
  }

  // ---------------------------------------------------------------------------
  // String.toInt (java.lang.Integer.parseInt, radix 10)
  // ---------------------------------------------------------------------------

  const MinInt: int := -0x8000_0000
  const MaxInt: int := 0x7FFF_FFFF

  predicate IsDigit(c: char)
  {
    '0' <= c <= '9'
  }

  predicate AllDigits(s: string)
  {
    forall i :: 0 <= i < |s| ==> IsDigit(s[i])
  }

  /** The value of a string of decimal digits, most significant first. */
  function DigitsValue(s: string): nat
    requires AllDigits(s)
  {
    if s == [] then 0 else DigitsValue(s[..|s| - 1]) * 10 + (s[|s| - 1] as int - '0' as int)
  }

  /**
   * `toInt()`: an optional `+` or `-`, then at least one decimal digit, and a
   * value that fits in 32 bits; `None` where `parseInt` throws
   * `NumberFormatException`.
   */
  function ParseInt(s: string): (r: Option<int>)
    ensures r.Some? ==> MinInt <= r.value <= MaxInt
    ensures r.Some? ==> s != []
  {
    if s == [] then None
    else
      var negative := s[0] == '-';
      var digits := if s[0] == '-' || s[0] == '+' then s[1..] else s;
      if digits == [] || !AllDigits(digits) then None
      else
        var v: int := if negative then -(DigitsValue(digits) as int) else DigitsValue(digits);
        if MinInt <= v <= MaxInt then Some(v) else None
  }

  /** The decimal digits of `n`, most significant first, without leading zeros. */
  function NatToString(n: nat): (s: string)
    ensures s != [] && AllDigits(s)
  {
    var d := ['0' + (n % 10) as char];
    if n < 10 then d else NatToString(n / 10) + d
  }

  /** Kotlin's `Int.toString()`. */
  function IntToString(v: int): string
  {
    if v < 0 then "-" + NatToString(-v) else NatToString(v)
  }

  lemma {:induction false} NatToStringValue(n: nat)
    ensures DigitsValue(NatToString(n)) == n
  {
    var s := NatToString(n);
    if n >= 10 {
      NatToStringValue(n / 10);
      assert s[..|s| - 1] == NatToString(n / 10);
    }
  }

  /** Digits that fit read back as their value, with or without a leading `+`. */
  lemma ParseDigits(digits: string)
    requires digits != [] && AllDigits(digits) && DigitsValue(digits) <= MaxInt
    ensures ParseInt(digits) == Some(DigitsValue(digits) as int)
    ensures ParseInt("+" + digits) == Some(DigitsValue(digits) as int)
  {
    assert ("+" + digits)[1..] == digits;
  }

  /** Digits after a `-` read back as the negated value when it fits. */
  lemma ParseNegatedDigits(digits: string)
    requires digits != [] && AllDigits(digits) && DigitsValue(digits) <= -MinInt
    ensures ParseInt("-" + digits) == Some(-(DigitsValue(digits) as int))
  {
    assert ("-" + digits)[1..] == digits;
  }

  /** Reading back a printed 32-bit integer gives the integer; an explicit `+` is accepted too. */
  lemma ParseIntToString(v: int)
    requires MinInt <= v <= MaxInt
    ensures ParseInt(IntToString(v)) == Some(v)
    ensures v >= 0 ==> ParseInt("+" + IntToString(v)) == Some(v)
  {
    if v < 0 {
      NatToStringValue(-v);
      ParseNegatedDigits(NatToString(-v));
    } else {
      NatToStringValue(v);
      ParseDigits(NatToString(v));
    }
  }

  /** `s` is the digits `digits`, bare or after a `+` or a `-`, and `v` is their value with that sign. */
  predicate SignedDigits(s: string, digits: string, v: int)
    requires AllDigits(digits)
  {
    || (s == digits && v == DigitsValue(digits))
    || (s == "+" + digits && v == DigitsValue(digits))
    || (s == "-" + digits && v == -(DigitsValue(digits) as int))
  }

  /**
   * Exactly what `toInt` accepts: one or more ASCII digits, bare or after a
   * `+` or a `-`, whose signed value fits in 32 bits; the result is that value.
   */
  lemma ParseIntAccepts(s: string, v: int)
    ensures ParseInt(s) == Some(v) <==>
      MinInt <= v <= MaxInt && exists digits :: digits != [] && AllDigits(digits) && SignedDigits(s, digits, v)
  {
    if ParseInt(s) == Some(v) {
      var digits := if s[0] == '-' || s[0] == '+' then s[1..] else s;
      if s[0] == '-' {
        assert s == "-" + digits;
      } else if s[0] == '+' {
        assert s == "+" + digits;
      }
      assert SignedDigits(s, digits, v);
    }
    if digits :| digits != [] && AllDigits(digits) && SignedDigits(s, digits, v) {
      if s == "+" + digits || s == "-" + digits {
        assert s[1..] == digits;
      } else {
        assert IsDigit(s[0]);
      }
    }
  }

  /** A character that is neither a digit nor a leading sign makes `toInt` fail. */
  lemma ParseIntNonDigit(s: string, i: nat)
    requires i < |s| && !IsDigit(s[i])
    requires i == 0 ==> s[0] != '-' && s[0] != '+'
    ensures ParseInt(s) == None
  {
    if i > 0 && (s[0] == '-' || s[0] == '+') {
      assert s[1..][i - 1] == s[i];
    }
  }

  /** A printed integer outside 32 bits is refused, as are a bare sign and a non-digit. */
  lemma ParseIntRejects(v: int)
    requires v < MinInt || MaxInt < v
    ensures ParseInt(IntToString(v)) == None
    ensures ParseInt("-") == None && ParseInt("+") == None
    ensures ParseInt("1x") == None
  {
    if v < 0 {
      NatToStringValue(-v);
      assert ("-" + NatToString(-v))[1..] == NatToString(-v);
    } else {
      NatToStringValue(v);
    }
    assert !IsDigit("1x"[1]);
  }

  // ---------------------------------------------------------------------------
  // buildOrder
  // ---------------------------------------------------------------------------

  /** Why the `Order` could not be built: the exception that `buildOrder` wraps. */
  datatype Cause =
    | NoSuchSide(name: string)      // `valueOf` found no constant
    | NotAnInt(text: string)        // `toInt` threw
    | NotAFloat(text: string)       // `toFloat` threw
    | InvalidOrder(error: OrderError)  // a `require` of the Order constructor failed

  datatype BuildOrderException = BuildOrderException(message: string, cause: Option<Cause>)

  const LineNotFound: string := "Unable to build an order. Line not found"
  const UnableToBuild: string := "Unable to build an order from: "

  /**
   * The `try` block of `buildOrder`: convert the side, quantity and price
   * tokens in argument order, then run the Order constructor's checks. Any
   * failure is wrapped with the line as written.
   */
  function FromTokens(orderID: string, side: string, instrument: string, size: string, price: string,
                      line: string, now: int, parsePrice: string -> Option<real>): (r: Result<Order, BuildOrderException>)
  {
    var wrap := (c: Cause) => Err(BuildOrderException(UnableToBuild + line, Some(c)));
    match ParseSide(side)
    case None => wrap(NoSuchSide(ToUpper(side)))
    case Some(s) =>
      match ParseInt(size)
      case None => wrap(NotAnInt(size))
      case Some(q) =>
        match parsePrice(price)
        case None => wrap(NotAFloat(price))
        case Some(p) =>
          match NewOrder(orderID, s, Instrument(ToUpper(instrument)), q, p, now)
          case Ok(o) => Ok(o)
          case Err(e) => wrap(InvalidOrder(e))
  }

  /**
   * `buildOrder`, with the clock reading `now` and the float parser
   * `parsePrice` (`None` where `toFloat` throws) as parameters.
   */
  function BuildOrder(line: string, now: int, parsePrice: string -> Option<real>): (r: Result<Order, BuildOrderException>)
  {
    if IsBlank(line) then Err(BuildOrderException(LineNotFound, None))
    else
      var arr := Split(TrimEnd(line));
      if |arr| != 5 then Err(BuildOrderException(UnableToBuild + line, None))
      else FromTokens(arr[0], arr[1], arr[2], arr[3], arr[4], line, now, parsePrice)
  }

  /**
   * What the conversions accept and produce: the order ID verbatim, the side
   * read case-insensitively, the symbol upper-cased, a non-negative 32-bit
   * quantity, a positive price and the clock reading. Every refusal carries
   * the line as written and the first failing conversion or check as its
   * cause, a negative quantity before a price that is not positive.
   */
  lemma FromTokensSpec(orderID: string, side: string, instrument: string, size: string, price: string,
                       line: string, now: int, parsePrice: string -> Option<real>)
    ensures var r := FromTokens(orderID, side, instrument, size, price, line, now, parsePrice);
      && (r.Ok? <==>
            ParseSide(side).Some? && ParseInt(size).Some? && ParseInt(size).value >= 0
            && parsePrice(price).Some? && parsePrice(price).value > 0.0)
      && (r.Ok? ==>
            && r.value.orderID == orderID && r.value.side == ParseSide(side).value
            && r.value.instrument == Instrument(ToUpper(instrument))
            && r.value.quantity == ParseInt(size).value <= MaxInt
            && r.value.price == parsePrice(price).value && r.value.timestamp == now)
      && (r.Err? ==> r.error.message == UnableToBuild + line && r.error.cause.Some?)
      && (ParseSide(side).None? ==> r.Err? && r.error.cause == Some(NoSuchSide(ToUpper(side))))
      && (ParseSide(side).Some? && ParseInt(size).None? ==> r.Err? && r.error.cause == Some(NotAnInt(size)))
      && (ParseSide(side).Some? && ParseInt(size).Some? && parsePrice(price).None? ==>
            r.Err? && r.error.cause == Some(NotAFloat(price)))
      && (ParseSide(side).Some? && ParseInt(size).Some? && ParseInt(size).value < 0 && parsePrice(price).Some? ==>
            r.Err? && r.error.cause == Some(InvalidOrder(NegativeQuantity)))
      && (ParseSide(side).Some? && ParseInt(size).Some? && ParseInt(size).value >= 0
          && parsePrice(price).Some? && parsePrice(price).value <= 0.0 ==>
            r.Err? && r.error.cause == Some(InvalidOrder(NonPositivePrice)))
  {
  }

  /** A blank line is refused with the "Line not found" message and no cause. */
  lemma BuildOrderBlank(line: string, now: int, parsePrice: string -> Option<real>)
    requires IsBlank(line)
    ensures BuildOrder(line, now, parsePrice) == Err(BuildOrderException(LineNotFound, None))
  {
  }

  /**
   * A non-blank line is refused without a cause exactly when it does not
   * have five tokens; otherwise its five tokens are converted in place.
   */
  lemma BuildOrderTokens(line: string, now: int, parsePrice: string -> Option<real>)
    requires !IsBlank(line)
    ensures var arr := Split(TrimEnd(line));
      var r := BuildOrder(line, now, parsePrice);
      && (|arr| != 5 ==> r == Err(BuildOrderException(UnableToBuild + line, None)))
      && (|arr| == 5 ==> r == FromTokens(arr[0], arr[1], arr[2], arr[3], arr[4], line, now, parsePrice))
  {
  }

  /**
   * A line that starts with a splitting character has an empty first token, so
   * it is accepted only as an order with an empty order ID.
   */
  lemma BuildOrderLeadingSpace(line: string, now: int, parsePrice: string -> Option<real>)
    requires line != [] && IsRegexSpace(line[0])
    ensures var r := BuildOrder(line, now, parsePrice);
      r.Ok? ==> r.value.orderID == []
  {
    var r := BuildOrder(line, now, parsePrice);
    if r.Ok? {
      var t := TrimEnd(line);
      assert t != [] by {
        BlankIffTrimmedEmpty(line);
      }
      SplitLeadingSpace(t);
      var arr := Split(t);
      FromTokensSpec(arr[0], arr[1], arr[2], arr[3], arr[4], line, now, parsePrice);
    }
  }

  /** The five fields of an order as `buildOrder` expects them, the price given as text. */
  function OrderTokens(o: Order, priceText: string): seq<string>
  {
    [o.orderID, SideName(o.side), o.instrument.symbol, IntToString(o.quantity), priceText]
  }

  /** A non-empty run of splitting characters. */
  predicate Separator(sep: string)
  {
    sep != [] && forall i :: 0 <= i < |sep| ==> IsRegexSpace(sep[i])
  }

  /**
   * Tokens a line can be joined from and split back into: non-empty, free of
   * splitting characters, and with no white space at the line's two ends.
   */
  predicate SingleTokens(ts: seq<string>)
  {
    && |ts| >= 1
    && (forall k :: 0 <= k < |ts| ==> ts[k] != [] && NoRegexSpace(ts[k]))
    && !IsWhitespace(ts[0][0]) && !IsWhitespace(ts[|ts| - 1][|ts[|ts| - 1]| - 1])
  }

  /** What makes every field a single non-empty token. */
  predicate Printable(o: Order, priceText: string)
  {
    && o.orderID != [] && NoRegexSpace(o.orderID) && !IsWhitespace(o.orderID[0])
    && o.instrument.symbol != [] && NoRegexSpace(o.instrument.symbol)
    && priceText != [] && NoRegexSpace(priceText) && !IsWhitespace(priceText[|priceText| - 1])
  }

  lemma PrintedTokens(o: Order, priceText: string)
    requires Printable(o, priceText)
    ensures SingleTokens(OrderTokens(o, priceText))
  {
    var ts := OrderTokens(o, priceText);
    SideNameToken(o.side);
    NumberToken(o.quantity);
    forall k | 0 <= k < |ts| ensures ts[k] != [] && NoRegexSpace(ts[k]) {
      if k == 0 {
        assert ts[k] == o.orderID;
      } else if k == 1 {
        assert ts[k] == SideName(o.side);
      } else if k == 2 {
        assert ts[k] == o.instrument.symbol;
      } else if k == 3 {
        assert ts[k] == NatToString(o.quantity);
      } else {
        assert ts[k] == priceText;
      }
    }
  }

  /**
   * Reading back a printed order: the order ID, side name, symbol, quantity and
   * price text joined by a run of splitting characters build the same order,
   * stamped with the clock reading. The order ID and symbol must be single
   * tokens, the symbol already upper case, and the price text must parse to
   * the price.
   */
  lemma BuildOrderRoundTrip(o: Order, priceText: string, sep: string, now: int,
                            parsePrice: string -> Option<real>)
    requires Printable(o, priceText)
    requires forall i :: 0 <= i < |o.instrument.symbol| ==> ToUpperChar(o.instrument.symbol[i]) == o.instrument.symbol[i]
    requires o.quantity <= MaxInt
    requires parsePrice(priceText) == Some(o.price)
    requires Separator(sep)
    ensures BuildOrder(JoinWith(OrderTokens(o, priceText), sep), now, parsePrice) == Ok(o.(timestamp := now))
  {
    var ts := OrderTokens(o, priceText);
    var line := JoinWith(ts, sep);
    PrintedLine(o, priceText, sep);
    ParseSideNames(o.side);
    ToUpperKeeps(o.instrument.symbol);
    ParseIntToString(o.quantity);
    FromTokensSpec(ts[0], ts[1], ts[2], ts[3], ts[4], line, now, parsePrice);
  }

  lemma PrintedLine(o: Order, priceText: string, sep: string)
    requires Printable(o, priceText)
    requires Separator(sep)
    ensures !IsBlank(JoinWith(OrderTokens(o, priceText), sep))
    ensures Split(TrimEnd(JoinWith(OrderTokens(o, priceText), sep))) == OrderTokens(o, priceText)
  {
    PrintedTokens(o, priceText);
    TokensOfLine(OrderTokens(o, priceText), sep);
  }

  lemma SideNameToken(side: Side)
    ensures SideName(side) != [] && NoRegexSpace(SideName(side))
  {
    if side == BUY {
      assert NoRegexSpace("BUY");
    } else {
      assert NoRegexSpace("SELL");
    }
  }

  lemma NumberToken(n: nat)
    ensures NoRegexSpace(IntToString(n))
  {
    var q := NatToString(n);
    forall i | 0 <= i < |q| ensures !IsRegexSpace(q[i]) {
      assert IsDigit(q[i]);
    }
  }

  /**
   * A line joined from non-empty tokens free of splitting characters, whose
   * first character is not white space and whose last is not either, is not
   * blank and its trimmed form splits back into the tokens.
   */
  lemma TokensOfLine(ts: seq<string>, sep: string)
    requires SingleTokens(ts)
    requires Separator(sep)
    ensures !IsBlank(JoinWith(ts, sep))
    ensures Split(TrimEnd(JoinWith(ts, sep))) == ts
  {
    var line := JoinWith(ts, sep);
    JoinedEnds(ts, sep);
    assert !IsWhitespace(line[0]);
    TrimEndKeeps(line);
    SplitJoin(ts, sep);
  }

  /** A joined line starts with the first token's first character and ends with the last token's last. */
  lemma {:induction false} JoinedEnds(ts: seq<string>, sep: string)
    requires |ts| >= 1 && forall k :: 0 <= k < |ts| ==> ts[k] != []
    ensures var line := JoinWith(ts, sep);
      line != [] && line[0] == ts[0][0] && line[|line| - 1] == ts[|ts| - 1][|ts[|ts| - 1]| - 1]
  {
    if |ts| > 1 {
      JoinedEnds(ts[1..], sep);
    }
  }
}
