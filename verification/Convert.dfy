/** Integers and text (lib/convert.c): the two parsers, over a C string and over a string view, and the
    printer that fills its buffer from the right. */
module Convert {
  import opened Common

  const INT64_MAX: nat := 0x7FFF_FFFF_FFFF_FFFF

  datatype Code =
    | NoDigits | InvalidChar | NegUnsigned | UnallowedPrefix | UnallowedBase | UnallowedPosSign | Underflow | Overflow

  datatype Parsed = Number(value: nat) | Fail(code: Code)

  /** struct str_to_num_options. */
  datatype Options = Options(
    base: nat, noBase2: bool, noBase8: bool, noBase16: bool, noBase36: bool,
    no0a: bool, no0A: bool, no0b: bool, no0B: bool, no0o: bool, no0O: bool, no0x: bool, no0X: bool,
    noPlus: bool, skipSpace: bool, partial: bool)

  predicate IsSpace(c: char) {
    c == ' ' || '\t' <= c <= '\r'
  }

  /** The value of a digit or a letter of either case, 255 for any other character. */
  function DigitOf(c: char): nat {
    if '0' <= c <= '9' then (c - '0') as nat
    else if 'A' <= c <= 'Z' then 10 + (c - 'A') as nat
    else if 'a' <= c <= 'z' then 10 + (c - 'a') as nat
    else 255
  }

  datatype Prefix = Refused(code: Code) | Base(base: nat) | NoPrefix

  /** The character after a leading zero. */
  function PrefixOf(c: char, o: Options): Prefix {
    match c
    case 'a' => if o.no0a then Refused(UnallowedPrefix) else if o.noBase36 then Refused(UnallowedBase) else Base(36)
    case 'A' => if o.no0A then Refused(UnallowedPrefix) else if o.noBase36 then Refused(UnallowedBase) else Base(36)
    case 'b' => if o.no0b then Refused(UnallowedPrefix) else if o.noBase2 then Refused(UnallowedBase) else Base(2)
    case 'B' => if o.no0B then Refused(UnallowedPrefix) else if o.noBase2 then Refused(UnallowedBase) else Base(2)
    case 'o' => if o.no0o then Refused(UnallowedPrefix) else if o.noBase8 then Refused(UnallowedBase) else Base(8)
    case 'O' => if o.no0O then Refused(UnallowedPrefix) else if o.noBase8 then Refused(UnallowedBase) else Base(8)
    case 'x' => if o.no0x then Refused(UnallowedPrefix) else if o.noBase16 then Refused(UnallowedBase) else Base(16)
    case 'X' => if o.no0X then Refused(UnallowedPrefix) else if o.noBase16 then Refused(UnallowedBase) else Base(16)
    case _ => NoPrefix
  }

  // ---------- what a text means ----------

  function Finish(found: bool, acc: nat, signed: bool, neg: bool): Parsed {
    if !found then Fail(NoDigits)
    else if signed && acc > INT64_MAX then Fail(Overflow)
    else if neg then Fail(Underflow)
    else Number(acc)
  }

  /** check_mul and check_add: one digit more, unless it does not fit 64 bits. */
  function Push(acc: nat, base: nat, d: nat): Option<nat> {
    if acc * base >= POW64 || acc * base + d >= POW64 then None else Some(acc * base + d)
  }

  function Digits(s: string, base: nat, found: bool, acc: nat, partial: bool, signed: bool, neg: bool): Parsed {
    if s == [] then Finish(found, acc, signed, neg)
    else
      var d := DigitOf(s[0]);
      if d >= base then (if !partial then Fail(InvalidChar) else Finish(found, acc, signed, neg))
      else
        match Push(acc, base, d)
        case None => Fail(Overflow)
        case Some(more) => Digits(s[1..], base, true, more, partial, signed, neg)
  }

  function Body(s: string, o: Options, signed: bool, neg: bool): Parsed
    requires s != []
  {
    if s[0] != '0' then Digits(s, o.base, false, 0, o.partial, signed, neg)
    else if |s| == 1 then Number(0)
    else
      match PrefixOf(s[1], o)
      case Refused(code) => Fail(code)
      case Base(b) => Digits(s[2..], b, false, 0, o.partial, signed, neg)
      case NoPrefix => Digits(s[1..], 8, true, 0, o.partial, signed, neg)
  }

  function AfterSpace(s: string): string {
    if s != [] && IsSpace(s[0]) then AfterSpace(s[1..]) else s
  }

  function Parse(s: string, o: Options, signed: bool): Parsed {
    var t := if o.skipSpace then AfterSpace(s) else s;
    if t == [] then Fail(NoDigits)
    else if t[0] == '-' then
      (if !signed then Fail(NegUnsigned) else if |t| == 1 then Fail(NoDigits) else Body(t[1..], o, signed, true))
    else if t[0] == '+' then
      (if o.noPlus then Fail(UnallowedPosSign) else if |t| == 1 then Fail(NoDigits) else Body(t[1..], o, signed, false))
    else Body(t, o, signed, false)
  }

  /** The value of a run of digits: each counts for its place. */
  function Positional(s: string, base: nat): nat {
    if s == [] then 0 else DigitOf(s[0]) * Power(base, |s| - 1) + Positional(s[1..], base)
  }

  predicate AllDigits(s: string, base: nat) {
    forall k | 0 <= k < |s| :: DigitOf(s[k]) < base
  }

  /** The value of the digits of `s` behind what was read before. */
  function Behind(acc: nat, s: string, base: nat): nat {
    acc * Power(base, |s|) + Positional(s, base)
  }

  lemma PlaceMore(acc: nat, base: nat, d: nat, p: nat, rest: nat)
    ensures (acc * base + d) * p + rest == acc * (base * p) + (d * p + rest)
  {
    assert (acc * base + d) * p == acc * base * p + d * p;
    assert acc * base * p == acc * (base * p);
  }

  lemma PlaceLarge(n: nat, p: nat)
    requires p >= 1
    ensures n * p >= n
  {
  }

  lemma {:induction false} PowerPositive(base: nat, n: nat)
    requires base >= 1
    ensures Power(base, n) >= 1
  {
    if n > 0 {
      PowerPositive(base, n - 1);
      PlaceLarge(base, Power(base, n - 1));
    }
  }

  lemma BehindStep(acc: nat, s: string, base: nat)
    requires base >= 1 && s != []
    ensures var more := acc * base + DigitOf(s[0]);
            Behind(acc, s, base) == Behind(more, s[1..], base) >= more
  {
    var d, p := DigitOf(s[0]), Power(base, |s| - 1);
    hide DigitOf;
    PowerPositive(base, |s| - 1);
    PlaceMore(acc, base, d, p, Positional(s[1..], base));
    PlaceLarge(acc * base + d, p);
  }

  lemma BehindNone(acc: nat, base: nat)
    ensures Behind(acc, [], base) == acc
  {
  }

  lemma PushMeans(acc: nat, base: nat, d: nat)
    ensures Push(acc, base, d) == if acc * base + d < POW64 then Some(acc * base + d) else None
  {
  }

  /** The digit loop over a run of digits and what follows: it comes to the rest with the value of the digits
      behind what was read before, and finds an overflow exactly when that does not fit 64 bits. */
  lemma {:induction false} DigitsThen(s: string, u: string, base: nat, found: bool, acc: nat, partial: bool, signed: bool, neg: bool)
    requires base >= 1 && acc < POW64 && AllDigits(s, base)
    ensures Digits(s + u, base, found, acc, partial, signed, neg) ==
            if Behind(acc, s, base) < POW64 then Digits(u, base, found || s != [], Behind(acc, s, base), partial, signed, neg)
            else Fail(Overflow)
    decreases |s|
  {
    hide Finish, Behind, Push, DigitOf;
    if s == [] {
      BehindNone(acc, base);
      assert s + u == u;
    } else {
      BehindStep(acc, s, base);
      PushMeans(acc, base, DigitOf(s[0]));
      var more := Push(acc, base, DigitOf(s[0]));
      assert (s + u)[1..] == s[1..] + u && (s + u)[0] == s[0];
      if more.Some? {
        DigitsThen(s[1..], u, base, true, more.value, partial, signed, neg);
      }
    }
  }

  lemma DigitsMean(s: string, base: nat, found: bool, acc: nat, partial: bool, signed: bool, neg: bool)
    requires base >= 1 && acc < POW64 && AllDigits(s, base) && (found || s != [])
    ensures Digits(s, base, found, acc, partial, signed, neg) ==
            if Behind(acc, s, base) < POW64 then Finish(true, Behind(acc, s, base), signed, neg) else Fail(Overflow)
  {
    hide Finish, Behind;
    DigitsThen(s, "", base, found, acc, partial, signed, neg);
    assert s + "" == s;
  }

  lemma AtTheStart(s: string, base: nat)
    ensures Behind(0, s, base) == Positional(s, base)
  {
    hide Power, Positional;
  }

  lemma DigitIs(c: char, base: nat)
    requires DigitOf(c) < base <= 36
    ensures c != '-' && c != '+' && !IsSpace(c)
  {
  }

  /** A value as an unsigned or as a signed number of 64 bits. */
  function Meaning(value: nat, signed: bool): Parsed {
    if value < (if signed then INT64_MAX + 1 else POW64) then Number(value) else Fail(Overflow)
  }

  lemma FinishMeans(value: nat, signed: bool)
    ensures (if value < POW64 then Finish(true, value, signed, false) else Fail(Overflow)) == Meaning(value, signed)
  {
  }

  /** A text of digits means their value, or an overflow exactly when the type does not hold it. */
  lemma ParseMeans(s: string, o: Options, signed: bool)
    requires s != [] && s[0] != '0' && 1 <= o.base <= 36 && AllDigits(s, o.base)
    ensures Parse(s, o, signed) == Meaning(Positional(s, o.base), signed)
  {
    hide Digits, Positional, Behind, Finish, Meaning;
    DigitIs(s[0], o.base);
    AtTheStart(s, o.base);
    DigitsMean(s, o.base, false, 0, o.partial, signed, false);
    FinishMeans(Positional(s, o.base), signed);
  }

  /** Behind a leading zero the digits are octal, whatever the base asked for. */
  lemma OctalMeans(s: string, o: Options, signed: bool)
    requires s != [] && AllDigits(s, 8)
    ensures Parse("0" + s, o, signed) == Meaning(Positional(s, 8), signed)
  {
    hide Digits, Positional, Behind, Finish, Meaning;
    var t := "0" + s;
    assert t[1..] == s && t[1] == s[0] && '0' <= s[0] <= '7';
    AtTheStart(s, 8);
    DigitsMean(s, 8, true, 0, o.partial, signed, false);
    FinishMeans(Positional(s, 8), signed);
  }

  /** The letters that may follow a leading zero, with the base each stands for. */
  const LETTERS: map<char, nat> := map['b' := 2, 'B' := 2, 'o' := 8, 'O' := 8, 'x' := 16, 'X' := 16, 'a' := 36, 'A' := 36]

  predicate NoPrefixFlag(o: Options, c: char) {
    || (c == 'b' && o.no0b) || (c == 'B' && o.no0B) || (c == 'o' && o.no0o) || (c == 'O' && o.no0O)
    || (c == 'x' && o.no0x) || (c == 'X' && o.no0X) || (c == 'a' && o.no0a) || (c == 'A' && o.no0A)
  }

  predicate NoBaseFlag(o: Options, base: nat) {
    (base == 2 && o.noBase2) || (base == 8 && o.noBase8) || (base == 16 && o.noBase16) || (base == 36 && o.noBase36)
  }

  lemma PrefixIs(c: char, o: Options)
    ensures PrefixOf(c, o) ==
            if c !in LETTERS then NoPrefix
            else if NoPrefixFlag(o, c) then Refused(UnallowedPrefix)
            else if NoBaseFlag(o, LETTERS[c]) then Refused(UnallowedBase)
            else Base(LETTERS[c])
  {
  }

  /** "0x" and its like: the digits behind them count in the base of the letter, whatever the base asked for;
      a prefix or a base that is switched off is refused. */
  lemma PrefixMeans(c: char, s: string, o: Options, signed: bool)
    requires c in LETTERS && s != [] && AllDigits(s, LETTERS[c])
    ensures Parse(['0', c] + s, o, signed) ==
            if NoPrefixFlag(o, c) then Fail(UnallowedPrefix)
            else if NoBaseFlag(o, LETTERS[c]) then Fail(UnallowedBase)
            else Meaning(Positional(s, LETTERS[c]), signed)
  {
    hide Digits, Positional, Behind, Finish, Meaning, PrefixOf, NoPrefixFlag, NoBaseFlag;
    var t := ['0', c] + s;
    assert t[0] == '0' && t[1] == c && t[2..] == s;
    PrefixIs(c, o);
    AtTheStart(s, LETTERS[c]);
    DigitsMean(s, LETTERS[c], false, 0, o.partial, signed, false);
    FinishMeans(Positional(s, LETTERS[c]), signed);
  }

  /** A plus sign before a digit changes nothing, unless it is not allowed. */
  lemma PlusMeans(s: string, o: Options, signed: bool)
    requires s != [] && DigitOf(s[0]) < 36
    ensures Parse("+" + s, o, signed) == if o.noPlus then Fail(UnallowedPosSign) else Parse(s, o, signed)
  {
    hide Body;
    var t := "+" + s;
    assert t[0] == '+' && t[1..] == s;
    DigitIs(s[0], 36);
  }

  lemma {:induction false} SpacesGone(t: string, s: string)
    requires forall k | 0 <= k < |t| :: IsSpace(t[k])
    ensures AfterSpace(t + s) == AfterSpace(s)
  {
    if t == [] {
      assert t + s == s;
    } else {
      assert (t + s)[1..] == t[1..] + s;
      SpacesGone(t[1..], s);
    }
  }

  /** White space is exactly these characters. */
  lemma SpacesAre(c: char)
    ensures IsSpace(c) <==> c in [' ', '\t', '\n', 11 as char, 12 as char, '\r']
  {
  }

  /** White space in front is skipped if that is asked for, and is no digit otherwise. */
  lemma SpaceMeans(t: string, s: string, o: Options, signed: bool)
    requires t != [] && o.base <= 36 && forall k | 0 <= k < |t| :: IsSpace(t[k])
    ensures Parse(t + s, o, signed) ==
            if o.skipSpace then Parse(s, o, signed) else if o.partial then Fail(NoDigits) else Fail(InvalidChar)
  {
    SpacesGone(t, s);
    assert (t + s)[0] == t[0] && IsSpace(t[0]);
  }

  /** Digits followed by something else: their value if a part is enough, an invalid character otherwise. */
  lemma PartialMeans(s: string, u: string, o: Options, signed: bool)
    requires s != [] && s[0] != '0' && 1 <= o.base <= 36 && AllDigits(s, o.base) && u != [] && DigitOf(u[0]) >= o.base
    ensures Parse(s + u, o, signed) ==
            if o.partial then Meaning(Positional(s, o.base), signed)
            else if Positional(s, o.base) < POW64 then Fail(InvalidChar) else Fail(Overflow)
  {
    hide Positional, Behind, Finish, Meaning;
    assert (s + u)[0] == s[0];
    DigitIs(s[0], o.base);
    AtTheStart(s, o.base);
    DigitsThen(s, u, o.base, false, 0, o.partial, signed, false);
    FinishMeans(Positional(s, o.base), signed);
  }

  lemma {:induction false} NoNegative(s: string, base: nat, found: bool, acc: nat, partial: bool, signed: bool)
    ensures Digits(s, base, found, acc, partial, signed, true).Fail?
    decreases |s|
  {
    if s != [] && DigitOf(s[0]) < base && Push(acc, base, DigitOf(s[0])).Some? {
      NoNegative(s[1..], base, true, Push(acc, base, DigitOf(s[0])).value, partial, signed);
    }
  }

  /** Behind a minus sign nothing is accepted but exactly "0". */
  lemma MinusMeans(s: string, o: Options)
    requires s != [] && s[0] == '-'
    ensures Parse(s, o, true).Number? <==> s == "-0"
    ensures Parse(s, o, false) == Fail(NegUnsigned)
  {
    hide Digits;
    assert o.skipSpace ==> AfterSpace(s) == s;
    if |s| > 1 {
      var t := s[1..];
      assert s == "-" + t;
      NoNegative(t, o.base, false, 0, o.partial, true);
      if |t| > 1 {
        NoNegative(t[1..], 8, true, 0, o.partial, true);
        if PrefixOf(t[1], o).Base? {
          NoNegative(t[2..], PrefixOf(t[1], o).base, false, 0, o.partial, true);
        }
      }
    }
  }

  // ---------- the parsers ----------

  /** convert_sv_to_64int. */
  method ParseView(sv: string, o: Options, signed: bool) returns (r: Parsed)
    ensures r == Parse(sv, o, signed)
  {
    hide Body;
    var i := 0;
    if |sv| == 0 {
      return Fail(NoDigits);
    }
    if o.skipSpace {
      while IsSpace(sv[i])
        invariant 0 <= i < |sv| && AfterSpace(sv) == AfterSpace(sv[i..])
        decreases |sv| - i
      {
        assert sv[i..][1..] == sv[i + 1..];
        i := i + 1;
        if i == |sv| {
          return Fail(NoDigits);
        }
      }
    }
    ghost var t := sv[i..];
    assert t == if o.skipSpace then AfterSpace(sv) else sv;
    var neg := false;
    if sv[i] == '-' {
      if !signed {
        return Fail(NegUnsigned);
      }
      i := i + 1;
      if i == |sv| {
        return Fail(NoDigits);
      }
      neg := true;
    } else if sv[i] == '+' {
      if o.noPlus {
        return Fail(UnallowedPosSign);
      }
      i := i + 1;
      if i == |sv| {
        return Fail(NoDigits);
      }
    }
    assert sv[i..] == (if t[0] == '-' || t[0] == '+' then t[1..] else t);
    r := ViewBody(sv, i, o, signed, neg);
  }

  /** Behind the sign: a zero, a prefix or the first digit. */
  method ViewBody(sv: string, from: nat, o: Options, signed: bool, neg: bool) returns (r: Parsed)
    requires from < |sv|
    ensures r == Body(sv[from..], o, signed, neg)
  {
    hide Digits, PrefixOf;
    ghost var u := sv[from..];
    var i, found, base := from, false, o.base;
    if sv[i] == '0' {
      i := i + 1;
      if i == |sv| {
        return Number(0);
      }
      assert u[1..] == sv[i..];
      match PrefixOf(sv[i], o) {
        case Refused(code) => return Fail(code);
        case Base(b) =>
          base := b;
          i := i + 1;
          assert u[2..] == sv[i..];
        case NoPrefix =>
          base := 8;
          found := true;
      }
    }
    r := ViewDigits(sv, i, base, found, o.partial, signed, neg);
  }

  method ViewDigits(sv: string, from: nat, base: nat, zero: bool, partial: bool, signed: bool, neg: bool) returns (r: Parsed)
    requires from <= |sv|
    ensures r == Digits(sv[from..], base, zero, 0, partial, signed, neg)
  {
    hide Push;
    var i, found := from, zero;
    var acc: nat := 0;
    while i != |sv|
      invariant from <= i <= |sv|
      invariant Digits(sv[from..], base, zero, 0, partial, signed, neg) == Digits(sv[i..], base, found, acc, partial, signed, neg)
      decreases |sv| - i
    {
      var digit := DigitOf(sv[i]);
      if digit >= base {
        if !partial {
          return Fail(InvalidChar);
        }
        break;
      }
      found := true;
      var more := Push(acc, base, digit);
      if more.None? {
        return Fail(Overflow);
      }
      assert sv[i..][1..] == sv[i + 1..];
      acc := more.value;
      i := i + 1;
    }
    return Finish(found, acc, signed, neg);
  }

  /** convert_cstr_to_64int, over memory with a NUL at `n` that ends the string. */
  method ParseCstr(mem: string, o: Options, signed: bool, ghost n: nat) returns (r: Parsed)
    requires n < |mem| && mem[n] == '\0' && forall k | 0 <= k < n :: mem[k] != '\0'
    ensures r == Parse(mem[..n], o, signed)
  {
    hide Body;
    ghost var s := mem[..n];
    var i := 0;
    if mem[i] == '\0' {
      return Fail(NoDigits);
    }
    if o.skipSpace {
      while IsSpace(mem[i])
        invariant 0 <= i < n && AfterSpace(s) == AfterSpace(s[i..])
        decreases n - i
      {
        assert s[i..][1..] == s[i + 1..];
        i := i + 1;
        if mem[i] == '\0' {
          return Fail(NoDigits);
        }
      }
    }
    ghost var t := s[i..];
    assert t == if o.skipSpace then AfterSpace(s) else s;
    var neg := false;
    if mem[i] == '-' {
      if !signed {
        return Fail(NegUnsigned);
      }
      i := i + 1;
      if mem[i] == '\0' {
        return Fail(NoDigits);
      }
      neg := true;
    } else if mem[i] == '+' {
      if o.noPlus {
        return Fail(UnallowedPosSign);
      }
      i := i + 1;
      if mem[i] == '\0' {
        return Fail(NoDigits);
      }
    }
    assert s[i..] == (if t[0] == '-' || t[0] == '+' then t[1..] else t);
    r := CstrBody(mem, i, o, signed, neg, n);
  }

  method CstrBody(mem: string, from: nat, o: Options, signed: bool, neg: bool, ghost n: nat) returns (r: Parsed)
    requires from < n < |mem| && mem[n] == '\0' && forall k | 0 <= k < n :: mem[k] != '\0'
    ensures r == Body(mem[..n][from..], o, signed, neg)
  {
    hide Digits, PrefixOf;
    ghost var s := mem[..n];
    ghost var u := s[from..];
    var i, found, base := from, false, o.base;
    if mem[i] == '0' {
      i := i + 1;
      if mem[i] == '\0' {
        return Number(0);
      }
      assert u[1..] == s[i..];
      match PrefixOf(mem[i], o) {
        case Refused(code) => return Fail(code);
        case Base(b) =>
          base := b;
          i := i + 1;
          assert u[2..] == s[i..];
        case NoPrefix =>
          base := 8;
          found := true;
      }
    }
    r := CstrDigits(mem, i, base, found, o.partial, signed, neg, n);
  }

  method CstrDigits(mem: string, from: nat, base: nat, zero: bool, partial: bool, signed: bool, neg: bool, ghost n: nat)
    returns (r: Parsed)
    requires from <= n < |mem| && mem[n] == '\0' && forall k | 0 <= k < n :: mem[k] != '\0'
    ensures r == Digits(mem[..n][from..], base, zero, 0, partial, signed, neg)
  {
    hide Push;
    ghost var s := mem[..n];
    var i, found := from, zero;
    var acc: nat := 0;
    while mem[i] != '\0'
      invariant from <= i <= n
      invariant Digits(s[from..], base, zero, 0, partial, signed, neg) == Digits(s[i..], base, found, acc, partial, signed, neg)
      decreases n - i
    {
      var digit := DigitOf(mem[i]);
      if digit >= base {
        if !partial {
          return Fail(InvalidChar);
        }
        break;
      }
      found := true;
      var more := Push(acc, base, digit);
      if more.None? {
        return Fail(Overflow);
      }
      assert s[i..][1..] == s[i + 1..];
      acc := more.value;
      i := i + 1;
    }
    return Finish(found, acc, signed, neg);
  }

  // ---------- printing ----------

  /** struct num_to_str_options. */
  datatype PrintOptions = PrintOptions(prefix: bool, plus: bool, upper: bool, upperPrefix: bool)

  predicate PrintBase(base: nat) {
    base == 2 || base == 8 || base == 10 || base == 16
  }

  function DigitChar(d: nat, upper: bool): (c: char)
    requires d < 36
    ensures DigitOf(c) == d && (c == '0' <==> d == 0) && !IsSpace(c) && c != '-' && c != '+'
  {
    if d < 10 then '0' + d as char else if upper then 'A' + (d - 10) as char else 'a' + (d - 10) as char
  }

  /** Exactly the two letters or the one figure of a value count for it. */
  lemma DigitIff(c: char, d: nat)
    requires d < 36
    ensures DigitOf(c) == d <==> c == DigitChar(d, true) || c == DigitChar(d, false)
  {
  }

  /** The digits of a number, most significant first. */
  function Render(n: nat, base: nat, upper: bool): (s: string)
    requires 2 <= base <= 36
    ensures s != [] && (n != 0 ==> s[0] != '0') && (n == 0 ==> s == "0")
    ensures !IsSpace(s[0]) && s[0] != '-' && s[0] != '+'
  {
    if n < base then [DigitChar(n, upper)] else
      Smaller(n, base);
      Render(n / base, base, upper) + [DigitChar(n % base, upper)]
  }

  lemma Smaller(n: nat, base: nat)
    requires 2 <= base <= n
    ensures 0 < n / base < n && n == n / base * base + n % base
  {
  }

  function PrefixChar(base: nat, upper: bool): char {
    if base == 2 then (if upper then 'B' else 'b')
    else if base == 8 then (if upper then 'O' else 'o')
    else if upper then 'X' else 'x'
  }

  function Printed(n: nat, base: nat, o: PrintOptions): string
    requires PrintBase(base)
  {
    (if o.plus then "+" else "") + (if o.prefix then ['0', PrefixChar(base, o.upperPrefix)] else []) + Render(n, base, o.upper)
  }

  /** Reading the digits of a number back, with what follows them. */
  lemma {:induction false} DigitsOfRender(n: nat, base: nat, upper: bool, t: string, found: bool, partial: bool)
    requires 2 <= base <= 36 && n < POW64
    ensures Digits(Render(n, base, upper) + t, base, found, 0, partial, false, false) == Digits(t, base, true, n, partial, false, false)
    decreases n
  {
    hide Push;
    if n < base {
      var s := [DigitChar(n, upper)] + t;
      assert s[1..] == t && Render(n, base, upper) + t == s;
      PushIs(0, base, n, n);
    } else {
      Smaller(n, base);
      var d := [DigitChar(n % base, upper)];
      DigitsOfRender(n / base, base, upper, d + t, found, partial);
      assert Render(n, base, upper) + t == Render(n / base, base, upper) + (d + t);
      assert (d + t)[1..] == t;
      PushIs(n / base, base, n % base, n);
    }
  }

  lemma PushIs(acc: nat, base: nat, d: nat, n: nat)
    requires acc * base + d == n < POW64
    ensures Push(acc, base, d) == Some(n)
  {
  }

  /** The parser can be asked for what the printer writes. */
  predicate Accepts(p: Options, base: nat, o: PrintOptions) {
    && p.base == base && (o.plus ==> !p.noPlus)
    && (o.prefix ==> !NoPrefixFlag(p, PrefixChar(base, o.upperPrefix)) && !NoBaseFlag(p, base))
  }

  /** Printing and parsing give the number back. */
  lemma RoundTrip(n: nat, base: nat, o: PrintOptions, p: Options)
    requires n < POW64 && PrintBase(base) && (o.prefix ==> base != 10) && Accepts(p, base, o)
    ensures Parse(Printed(n, base, o), p, false) == Number(n)
  {
    hide Push, Digits, PrefixOf, Body;
    var r := Render(n, base, o.upper);
    var c := PrefixChar(base, o.upperPrefix);
    var u := (if o.prefix then ['0', c] else []) + r;
    var s := Printed(n, base, o);
    assert s == if o.plus then "+" + u else u;
    assert AfterSpace(s) == s;
    assert o.plus ==> s[1..] == u;
    BodyOfPrinted(n, base, o, p);
  }

  lemma BodyOfPrinted(n: nat, base: nat, o: PrintOptions, p: Options)
    requires n < POW64 && PrintBase(base) && (o.prefix ==> base != 10) && Accepts(p, base, o)
    ensures Body((if o.prefix then ['0', PrefixChar(base, o.upperPrefix)] else []) + Render(n, base, o.upper), p, false, false) == Number(n)
  {
    hide Push, Digits, PrefixOf;
    var r := Render(n, base, o.upper);
    var c := PrefixChar(base, o.upperPrefix);
    var u := (if o.prefix then ['0', c] else []) + r;
    assert r + "" == r;
    DigitsOfRender(n, base, o.upper, "", false, p.partial);
    NoMoreDigits(base, n, p.partial);
    if o.prefix {
      PrefixIs(c, p);
      assert u[0] == '0' && u[1] == c && u[2..] == r;
    } else {
      assert u == r;
    }
  }

  lemma NoMoreDigits(base: nat, n: nat, partial: bool)
    ensures Digits("", base, true, n, partial, false, false) == Number(n)
  {
  }

  // ---------- the buffer ----------

  /** MAX_BINARY_CONVERT_CAP and its like. */
  function Cap(base: nat): nat
    requires PrintBase(base)
  {
    if base == 2 then 68 else if base == 8 then 26 else if base == 10 then 22 else 20
  }

  function MaxDigits(base: nat): nat
    requires PrintBase(base)
  {
    if base == 2 then 64 else if base == 8 then 22 else if base == 10 then 20 else 16
  }

  function Power(b: nat, k: nat): nat {
    if k == 0 then 1 else b * Power(b, k - 1)
  }

  lemma {:induction false} PowerPlus(b: nat, j: nat, k: nat)
    ensures Power(b, j + k) == Power(b, j) * Power(b, k)
  {
    if j > 0 {
      PowerPlus(b, j - 1, k);
      assert b * (Power(b, j - 1) * Power(b, k)) == (b * Power(b, j - 1)) * Power(b, k);
    }
  }

  lemma {:induction false} RenderLength(n: nat, base: nat, upper: bool, k: nat)
    requires 2 <= base <= 36 && k > 0 && n < Power(base, k)
    ensures |Render(n, base, upper)| <= k
    decreases k
  {
    if n >= base {
      Smaller(n, base);
      PowerOne(base);
      assert k > 1;
      DivLess(n, base, Power(base, k - 1));
      RenderLength(n / base, base, upper, k - 1);
    }
  }

  lemma PowerOne(b: nat)
    ensures Power(b, 1) == b
  {
    assert Power(b, 1) == b * Power(b, 0);
  }

  lemma DivLess(n: nat, base: nat, p: nat)
    requires 0 < base && n < base * p
    ensures n / base < p
  {
    var q := n / base;
    assert q * base <= n;
    assert q * base == p * base + (q - p) * base;
  }

  /** 64 bits take at most this many digits. */
  lemma Fits(base: nat)
    requires PrintBase(base)
    ensures POW64 <= Power(base, MaxDigits(base))
  {
    assert Power(base, 1) == base * Power(base, 0) == base;
    PowerPlus(base, 1, 1);
    PowerPlus(base, 2, 2);
    PowerPlus(base, 4, 4);
    PowerPlus(base, 8, 8);
    if base == 2 {
      PowerPlus(2, 16, 16);
      PowerPlus(2, 32, 32);
    } else if base == 8 {
      PowerPlus(8, 16, 4);
      PowerPlus(8, 20, 2);
    } else if base == 10 {
      PowerPlus(10, 16, 4);
    }
  }

  /** unsigned_to_string_view: the text stands in the buffer from `start` up to the NUL at `end`. */
  method Print(number: nat, base: nat, buffer: array<char>, o: PrintOptions) returns (start: nat, end: nat)
    requires number < POW64 && PrintBase(base) && (o.prefix ==> base != 10) && buffer.Length >= Cap(2)
    modifies buffer
    ensures start <= end == Cap(base) - 1 && buffer[end] == '\0'
    ensures buffer[start..end] == Printed(number, base, o)
  {
    hide Render, DigitChar, PrefixChar, Printed;
    end := Cap(base) - 1;
    buffer[end] := '\0';
    var i: nat := PrintDigits(number, base, buffer, end, o.upper);
    ghost var text := Render(number, base, o.upper);
    if o.prefix {
      var c := PrefixChar(base, o.upperPrefix);
      PutFront(buffer, i, end, c);
      PutFront(buffer, i - 1, end, '0');
      i := i - 2;
      text := ['0'] + ([c] + text);
    }
    PrintedIs(number, base, o, text);
    if o.plus {
      PutFront(buffer, i, end, '+');
      i := i - 1;
    }
    start := i;
  }

  lemma PrintedIs(n: nat, base: nat, o: PrintOptions, text: string)
    requires PrintBase(base)
    requires var r := Render(n, base, o.upper);
             text == if o.prefix then ['0'] + ([PrefixChar(base, o.upperPrefix)] + r) else r
    ensures Printed(n, base, o) == if o.plus then ['+'] + text else text
  {
    hide Render, PrefixChar;
    var r := Render(n, base, o.upper);
    var prefix := if o.prefix then ['0', PrefixChar(base, o.upperPrefix)] else [];
    assert text == prefix + r;
    Append(if o.plus then ['+'] else [], prefix, r);
    assert [] + text == text;
  }

  method PutFront(buffer: array<char>, i: nat, end: nat, c: char)
    requires 0 < i <= end < buffer.Length
    modifies buffer
    ensures buffer[i - 1..end] == [c] + old(buffer[i..end]) && buffer[end] == old(buffer[end])
  {
    buffer[i - 1] := c;
  }

  /** The digits, from the right; the buffer is large enough for them, a prefix and a sign. */
  method PrintDigits(number: nat, base: nat, buffer: array<char>, end: nat, upper: bool) returns (i: nat)
    requires number < POW64 && PrintBase(base) && end == Cap(base) - 1 < buffer.Length
    modifies buffer
    ensures 1 <= i < end && (base != 10 ==> i >= 3) && buffer[end] == old(buffer[end])
    ensures buffer[i..end] == Render(number, base, upper)
  {
    hide Render, Power, DigitChar, Cap;
    Fits(base);
    RenderLength(number, base, upper, MaxDigits(base));
    Slack(base);
    i := end - 1;
    var n: nat := number;
    ghost var r := Render(number, base, upper);
    ghost var done: string := [];
    while true
      invariant 0 <= i < end && buffer[end] == old(buffer[end])
      invariant r == Render(n, base, upper) + done && |done| == end - 1 - i
      invariant buffer[i + 1..end] == done
      decreases n
    {
      RenderStep(n, base, upper);
      ghost var c := DigitChar(n % base, upper);
      buffer[i] := DigitChar(n % base, upper);
      assert buffer[i..end] == [c] + done;
      if n < base {
        break;
      }
      Append(Render(n / base, base, upper), [c], done);
      done := [c] + done;
      i := i - 1;
      n := n / base;
    }
  }

  lemma Append<T>(a: seq<T>, b: seq<T>, c: seq<T>)
    ensures (a + b) + c == a + (b + c)
  {
  }

  lemma Slack(base: nat)
    requires PrintBase(base)
    ensures MaxDigits(base) + (if base == 10 then 1 else 3) == Cap(base) - 1
  {
  }

  lemma RenderStep(n: nat, base: nat, upper: bool)
    requires 2 <= base <= 36
    ensures n % base < base
    ensures n < base ==> n % base == n && Render(n, base, upper) == [DigitChar(n % base, upper)]
    ensures n >= base ==> 0 < n / base < n && Render(n, base, upper) == Render(n / base, base, upper) + [DigitChar(n % base, upper)]
  {
    hide DigitChar;
    if n >= base {
      Smaller(n, base);
      RenderHigh(n, base, upper);
    } else {
      ModOfSmall(n, base);
      RenderLow(n, base, upper);
    }
  }

  lemma ModOfSmall(n: nat, base: nat)
    requires n < base
    ensures n % base == n
  {
  }

  lemma RenderLow(n: nat, base: nat, upper: bool)
    requires 2 <= base <= 36 && n < base
    ensures Render(n, base, upper) == [DigitChar(n, upper)]
  {
  }

  lemma RenderHigh(n: nat, base: nat, upper: bool)
    requires 2 <= base <= 36 && n >= base && 0 < n / base < n && 0 <= n % base < base
    ensures Render(n, base, upper) == Render(n / base, base, upper) + [DigitChar(n % base, upper)]
  {
    hide DigitChar;
  }
}
