/** The structure block of a flattened device tree (Devicetree Specification v0.4, section 5.4)
    read as a sequence of tokens.  Everything here is about a suffix of the block that starts on a
    token boundary, which is what makes token sequences compose. */
module FdtFormat {
  import opened Bytes

  const TAG_BEGIN_NODE: U32 := 1
  const TAG_END_NODE: U32 := 2
  const TAG_PROP: U32 := 3
  const TAG_NOP: U32 := 4
  const TAG_END: U32 := 9

  // Error codes of libfdt.h, positive; the C functions return their negation.
  const NOTFOUND: int := 1
  const EXISTS: int := 2
  const NOSPACE: int := 3
  const BADOFFSET: int := 4
  const BADSTATE: int := 7
  const TRUNCATED: int := 8
  const BADMAGIC: int := 9
  const BADVERSION: int := 10
  const BADSTRUCTURE: int := 11
  const BADLAYOUT: int := 12
  const INTERNAL: int := 13
  const BADFLAGS: int := 18

  /** `nameoff` is the raw word: an offset into the strings block of a finished blob, a negated
      distance from its end while a blob is being written. */
  datatype Token =
    | Begin(name: seq<Byte>)
    | End
    | Prop(nameoff: U32, value: seq<Byte>)
    | Nop
    | Finish

  datatype Lexeme =
    | Bad(error: int)
    | Good(tok: Token, len: nat)

  /** The token at the front of `s`; `len` is the distance to the next token, padding included. */
  function LexOne(s: seq<Byte>): (r: Lexeme)
    ensures r.Good? ==> 4 <= r.len < |s| + 4 && r.len % 4 == 0
    ensures r.Bad? ==> r.error == TRUNCATED || r.error == BADSTRUCTURE
  {
    if |s| < 4 then Bad(TRUNCATED)
    else
      var tag := Load32(s, 0);
      if tag == TAG_BEGIN_NODE then
        var n := NulFrom(s, 4);
        if n == |s| then Bad(BADSTRUCTURE) else Good(Begin(s[4..n]), Align4(n + 1))
      else if tag == TAG_PROP then
        if |s| < 12 || 12 + Load32(s, 4) > |s| then Bad(BADSTRUCTURE)
        else Good(Prop(Load32(s, 8), s[12..12 + Load32(s, 4)]), Align4(12 + Load32(s, 4)))
      else if tag == TAG_END_NODE then Good(End, 4)
      else if tag == TAG_NOP then Good(Nop, 4)
      else if tag == TAG_END then Good(Finish, 4)
      else Bad(BADSTRUCTURE)
  }

  function Rest(s: seq<Byte>, n: nat): (r: seq<Byte>) {
    if n <= |s| then s[n..] else []
  }

  /** The tokens of `s` up to its first FDT_END tag, or Broken when the tags cannot be followed there. */
  datatype Lexed = Broken(error: int) | Tokens(toks: seq<Token>)

  function Lex(s: seq<Byte>): (r: Lexed)
    decreases |s|
  {
    match LexOne(s)
    case Bad(e) => Broken(e)
    case Good(tok, n) =>
      if tok.Finish? then Tokens([])
      else if n >= |s| then Broken(TRUNCATED)
      else
        match Lex(s[n..])
        case Broken(e) => Broken(e)
        case Tokens(ts) => Tokens([tok] + ts)
  }

  /** `s` is exactly a run of complete tokens `ts`, none of them FDT_END. */
  ghost predicate Lexes(s: seq<Byte>, ts: seq<Token>)
    decreases |ts|
  {
    hide LexOne;
    if ts == [] then s == []
    else
      var l := LexOne(s);
      l.Good? && l.tok == ts[0] && !l.tok.Finish? && l.len <= |s| && Lexes(s[l.len..], ts[1..])
  }

  /** A token is decided by its own bytes. */
  lemma LexOneLocal(s: seq<Byte>, t: seq<Byte>)
    requires LexOne(s).Good? && LexOne(s).len <= |s|
    ensures LexOne(s + t) == LexOne(s)
  {
    var u := s + t;
    LoadFrom(s, 0, u, 0);
    if Load32(s, 0) == TAG_BEGIN_NODE {
      var n := NulFrom(s, 4);
      NulFromUnique(u, 4, n);
      assert u[4..n] == s[4..n];
    } else if Load32(s, 0) == TAG_PROP {
      LoadFrom(s, 4, u, 4);
      LoadFrom(s, 8, u, 8);
      assert u[12..12 + Load32(s, 4)] == s[12..12 + Load32(s, 4)];
    }
  }

  lemma LexOnePrefix(s: seq<Byte>, k: nat)
    requires LexOne(s).Good? && LexOne(s).len <= k <= |s|
    ensures LexOne(s[..k]) == LexOne(s)
  {
    var u := s[..k];
    LoadFrom(s, 0, u, 0);
    if Load32(s, 0) == TAG_BEGIN_NODE {
      var n := NulFrom(s, 4);
      NulFromUnique(u, 4, n);
      assert u[4..n] == s[4..n];
    } else if Load32(s, 0) == TAG_PROP {
      LoadFrom(s, 4, u, 4);
      LoadFrom(s, 8, u, 8);
      assert u[12..12 + Load32(s, 4)] == s[12..12 + Load32(s, 4)];
    }
  }

  lemma {:induction false} LexesConcat(s: seq<Byte>, ts: seq<Token>, t: seq<Byte>, us: seq<Token>)
    requires Lexes(s, ts) && Lexes(t, us)
    ensures Lexes(s + t, ts + us)
    decreases |ts|
  {
    hide LexOne;
    if ts == [] {
      assert s + t == t && ts + us == us;
    } else {
      LexOneLocal(s, t);
      var n := LexOne(s).len;
      LexesConcat(s[n..], ts[1..], t, us);
      assert (s + t)[n..] == s[n..] + t;
      assert (ts + us)[1..] == ts[1..] + us;
    }
  }

  function Prepend(ts: seq<Token>, r: Lexed): Lexed {
    match r
    case Broken(e) => r
    case Tokens(us) => Tokens(ts + us)
  }

  lemma LexEmpty()
    ensures LexOne([]) == Bad(TRUNCATED) && Lex([]) == Broken(TRUNCATED)
  {
  }

  /** Following the tags through a run of complete tokens yields that run. */
  lemma {:induction false} LexAppend(s: seq<Byte>, ts: seq<Token>, t: seq<Byte>)
    requires Lexes(s, ts)
    ensures Lex(s + t) == Prepend(ts, Lex(t))
    decreases |ts|
  {
    hide LexOne;
    LexEmpty();
    if ts == [] {
      assert s + t == t;
      if Lex(t).Tokens? {
        assert [] + Lex(t).toks == Lex(t).toks;
      }
    } else {
      LexOneLocal(s, t);
      var n := LexOne(s).len;
      LexAppend(s[n..], ts[1..], t);
      assert (s + t)[n..] == s[n..] + t;
      if t == [] {
        assert s + t == s;
      }
      if Lex(t).Tokens? {
        assert [ts[0]] + (ts[1..] + Lex(t).toks) == ts + Lex(t).toks;
      }
    }
  }

  lemma LexesOne(s: seq<Byte>)
    requires LexOne(s).Good? && LexOne(s).len == |s| && !LexOne(s).tok.Finish?
    ensures Lexes(s, [LexOne(s).tok])
  {
    assert s[|s|..] == [];
    assert [LexOne(s).tok][1..] == [];
  }

  /** Appending one more token to a run. */
  lemma LexesSnoc(s: seq<Byte>, ts: seq<Token>, k: nat)
    requires k <= |s| && Lexes(s[..k], ts)
    requires LexOne(s[k..]).Good? && !LexOne(s[k..]).tok.Finish? && k + LexOne(s[k..]).len <= |s|
    ensures Lexes(s[..k + LexOne(s[k..]).len], ts + [LexOne(s[k..]).tok])
  {
    hide LexOne;
    var l := LexOne(s[k..]);
    var t := s[k..k + l.len];
    assert s[k..][..l.len] == t;
    LexOnePrefix(s[k..], l.len);
    LexesOne(t);
    LexesConcat(s[..k], ts, t, [l.tok]);
    assert s[..k] + t == s[..k + l.len];
  }

  /** A run is a whole number of words long. */
  lemma {:induction false} LexesAligned(s: seq<Byte>, ts: seq<Token>)
    requires Lexes(s, ts)
    ensures |s| % 4 == 0 && |s| >= 4 * |ts|
    decreases |ts|
  {
    hide LexOne;
    if ts != [] {
      LexesAligned(s[LexOne(s).len..], ts[1..]);
    }
  }

  /** A run's tokens are determined by its bytes. */
  lemma {:induction false} LexesUnique(s: seq<Byte>, ts: seq<Token>, us: seq<Token>)
    requires Lexes(s, ts) && Lexes(s, us)
    ensures ts == us
    decreases |ts|
  {
    hide LexOne;
    if ts == [] {
      if us != [] { LexesAligned(s, us); }
    } else if us == [] {
      LexesAligned(s, ts);
    } else {
      var n := LexOne(s).len;
      LexesUnique(s[n..], ts[1..], us[1..]);
      assert ts == [ts[0]] + ts[1..] && us == [us[0]] + us[1..];
    }
  }

  // Encodings of single tokens, as the writers lay them out.

  function Zeros(n: nat): (z: seq<Byte>)
    ensures |z| == n
  {
    seq(n, _ => 0)
  }

  lemma LexWord(w: U32, t: seq<Byte>)
    requires w == TAG_END_NODE || w == TAG_NOP || w == TAG_END
    ensures LexOne(Word(w) + t) == Good(if w == TAG_END_NODE then End else if w == TAG_NOP then Nop else Finish, 4)
  {
    LoadWord(w);
    LoadFrom(Word(w), 0, Word(w) + t, 0);
  }

  /** A begin tag, the name, its NUL and any padding up to the next word read back as that name. */
  lemma LexBegin(s: seq<Byte>, name: seq<Byte>)
    requires NulFree(name)
    requires |s| >= 4 + |name| + 1
    requires s[..4] == Word(TAG_BEGIN_NODE) && s[4..4 + |name|] == name && s[4 + |name|] == 0
    ensures LexOne(s) == Good(Begin(name), Align4(4 + |name| + 1))
  {
    LoadWord(TAG_BEGIN_NODE);
    LoadFrom(Word(TAG_BEGIN_NODE), 0, s, 0);
    assert Word(TAG_BEGIN_NODE)[0..4] == s[0..4];
    forall k | 4 <= k < 4 + |name|
      ensures s[k] != 0
    {
      assert s[k] == s[4..4 + |name|][k - 4];
    }
    NulFromUnique(s, 4, 4 + |name|);
  }

  lemma LexProp(s: seq<Byte>, nameoff: U32, value: seq<Byte>)
    requires |value| < POW32 && |s| >= 12 + |value|
    requires s[..4] == Word(TAG_PROP) && s[4..8] == Word(|value|) && s[8..12] == Word(nameoff)
    requires s[12..12 + |value|] == value
    ensures LexOne(s) == Good(Prop(nameoff, value), Align4(12 + |value|))
  {
    LoadWord(TAG_PROP);
    LoadWord(|value|);
    LoadWord(nameoff);
    assert Word(TAG_PROP)[0..4] == s[0..4] && Word(|value|)[0..4] == s[4..8] && Word(nameoff)[0..4] == s[8..12];
    LoadFrom(Word(TAG_PROP), 0, s, 0);
    LoadFrom(Word(|value|), 0, s, 4);
    LoadFrom(Word(nameoff), 0, s, 8);
  }
}
