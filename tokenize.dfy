/**
 * The string handling `parseAllow` does before it looks at any token
 * (src/lib.ts:11-12, 23-28): splitting on `;` and on whitespace, trimming, and
 * dropping empty pieces.
 */
module Tokenize {

  /**
   * The characters JavaScript's `\s` matches, which are also the ones
   * `String.prototype.trim` strips: the ECMAScript WhiteSpace and LineTerminator
   * characters.
   */
  predicate IsWhitespace(c: char) {
    || c == '\t' || c == '\n' || c == '\U{000B}' || c == '\U{000C}' || c == '\r'
    || c == ' ' || c == '\U{00A0}' || c == '\U{1680}'
    || ('\U{2000}' <= c <= '\U{200A}')
    || c == '\U{2028}' || c == '\U{2029}' || c == '\U{202F}' || c == '\U{205F}'
    || c == '\U{3000}' || c == '\U{FEFF}'
  }

  predicate IsSemicolon(c: char) {
    c == ';'
  }

  predicate NoWhitespace(s: string) {
    forall i :: 0 <= i < |s| ==> !IsWhitespace(s[i])
  }

  predicate NoSeparator(s: string, isSep: char -> bool) {
    forall i :: 0 <= i < |s| ==> !isSep(s[i])
  }

  /**
   * `String.prototype.split` on every character that `isSep` accepts: the pieces
   * between separators, in order, empty ones included.
   */
  function Split(s: string, isSep: char -> bool): (pieces: seq<string>)
    ensures |pieces| >= 1
    ensures forall p <- pieces :: NoSeparator(p, isSep)
  {
    if s == [] then [""]
    else
      var rest := Split(s[1..], isSep);
      if isSep(s[0]) then [""] + rest
      else
        assert NoSeparator(rest[0], isSep);
        var first := [s[0]] + rest[0];
        assert NoSeparator(first, isSep) by {
          forall i | 0 <= i < |first| ensures !isSep(first[i]) {
            if i > 0 { assert first[i] == rest[0][i - 1]; }
          }
        }
        [first] + rest[1..]
  }

  /** `Array.prototype.join` with a one-character separator. */
  function Join(pieces: seq<string>, sep: char): string {
    if |pieces| == 0 then ""
    else if |pieces| == 1 then pieces[0]
    else pieces[0] + [sep] + Join(pieces[1..], sep)
  }

  /** Splitting on a single character loses nothing: joining the pieces back gives the input. */
  lemma {:induction false} SplitJoin(s: string, isSep: char -> bool, sep: char)
    requires forall c :: isSep(c) <==> c == sep
    ensures Join(Split(s, isSep), sep) == s
  {
    if s != [] {
      var rest := Split(s[1..], isSep);
      SplitJoin(s[1..], isSep, sep);
      if isSep(s[0]) {
        assert Split(s, isSep) == [""] + rest;
        assert ([""] + rest)[1..] == rest;
        assert Join([""] + rest, sep) == "" + [sep] + Join(rest, sep);
      } else if |rest| == 1 {
        assert Split(s, isSep) == [[s[0]] + rest[0]];
      } else {
        var pieces := [[s[0]] + rest[0]] + rest[1..];
        assert Split(s, isSep) == pieces;
        assert pieces[1..] == rest[1..];
        assert Join(rest, sep) == rest[0] + [sep] + Join(rest[1..], sep);
        assert Join(pieces, sep) == [s[0]] + rest[0] + [sep] + Join(rest[1..], sep);
      }
    }
  }

  /** A string without separators is one piece. */
  lemma {:induction false} SplitNoSeparator(s: string, isSep: char -> bool)
    requires NoSeparator(s, isSep)
    ensures Split(s, isSep) == [s]
  {
    if s != [] {
      assert NoSeparator(s[1..], isSep) by {
        forall i | 0 <= i < |s| - 1 ensures !isSep(s[1..][i]) { assert s[1..][i] == s[i + 1]; }
      }
      SplitNoSeparator(s[1..], isSep);
      assert [s[0]] + s[1..] == s;
    }
  }

  /** The first piece runs up to the first separator; the rest is split the same way. */
  lemma {:induction false} SplitAtFirst(a: string, c: char, b: string, isSep: char -> bool)
    requires NoSeparator(a, isSep) && isSep(c)
    ensures Split(a + [c] + b, isSep) == [a] + Split(b, isSep)
  {
    var s := a + [c] + b;
    if a == [] {
      assert s[1..] == b;
    } else {
      assert s[1..] == a[1..] + [c] + b;
      assert NoSeparator(a[1..], isSep) by {
        forall i | 0 <= i < |a| - 1 ensures !isSep(a[1..][i]) { assert a[1..][i] == a[i + 1]; }
      }
      SplitAtFirst(a[1..], c, b, isSep);
      assert [a[0]] + a[1..] == a;
    }
  }

  /** `trimStart`: drops the leading whitespace and nothing else. */
  function TrimStart(s: string): (r: string)
    ensures |r| <= |s| && r == s[|s| - |r|..]
    ensures forall i :: 0 <= i < |s| - |r| ==> IsWhitespace(s[i])
    ensures r == [] || !IsWhitespace(r[0])
  {
    if s != [] && IsWhitespace(s[0]) then TrimStart(s[1..]) else s
  }

  /** `trimEnd`: drops the trailing whitespace and nothing else. */
  function TrimEnd(s: string): (r: string)
    ensures |r| <= |s| && r == s[..|r|]
    ensures forall i :: |r| <= i < |s| ==> IsWhitespace(s[i])
    ensures r == [] || !IsWhitespace(r[|r| - 1])
  {
    if s != [] && IsWhitespace(s[|s| - 1]) then TrimEnd(s[..|s| - 1]) else s
  }

  /** `String.prototype.trim`: no whitespace is left at either end (`TrimIsMiddle` says what is kept). */
  function Trim(s: string): (r: string)
    ensures |r| <= |s|
    ensures r == [] || (!IsWhitespace(r[0]) && !IsWhitespace(r[|r| - 1]))
    ensures r == [] <==> forall i :: 0 <= i < |s| ==> IsWhitespace(s[i])
    ensures NoWhitespace(s) ==> r == s
  {
    var t := TrimStart(s);
    var r := TrimEnd(t);
    assert r != [] ==> t[0] == r[0] && !IsWhitespace(t[0]);
    r
  }

  /** Trimming keeps a middle part of the input and cuts off only whitespace around it. */
  lemma TrimIsMiddle(s: string)
    ensures exists i: nat :: CutAt(s, Trim(s), i)
  {
    var t := TrimStart(s);
    CutBoth(s, t, TrimEnd(t));
    assert Trim(s) == TrimEnd(t);
    assert CutAt(s, Trim(s), |s| - |t|);
  }

  /** A prefix of a suffix, with whitespace dropped at both ends, is a cut of the whole. */
  lemma CutBoth(s: string, t: string, r: string)
    requires |t| <= |s| && t == s[|s| - |t|..] && forall j :: 0 <= j < |s| - |t| ==> IsWhitespace(s[j])
    requires |r| <= |t| && r == t[..|r|] && forall j :: |r| <= j < |t| ==> IsWhitespace(t[j])
    ensures CutAt(s, r, |s| - |t|)
  {
    var i := |s| - |t|;
    assert s[i..i + |r|] == r;
    forall j | i + |r| <= j < |s| ensures IsWhitespace(s[j]) {
      assert s[j] == t[j - i];
    }
  }

  /** `r` is the part of `s` that starts at `i`, and everything around it is whitespace. */
  predicate CutAt(s: string, r: string, i: nat) {
    && i + |r| <= |s| && r == s[i..i + |r|]
    && (forall j :: 0 <= j < i ==> IsWhitespace(s[j]))
    && (forall j :: i + |r| <= j < |s| ==> IsWhitespace(s[j]))
  }

  /**
   * `pieces.map((s) => s.trim()).filter(Boolean)`: every piece trimmed, the
   * empty results dropped, the order kept.
   */
  function NonBlankTrimmed(pieces: seq<string>): (r: seq<string>)
    ensures |r| <= |pieces|
    ensures forall t <- r :: Trimmed(t)
    ensures (forall p <- pieces :: NoWhitespace(p)) ==> forall t <- r :: NoWhitespace(t)
  {
    if pieces == [] then []
    else
      var t := Trim(pieces[0]);
      var rest := NonBlankTrimmed(pieces[1..]);
      assert NoWhitespace(pieces[0]) ==> t == pieces[0];
      (if t == [] then [] else [t]) + rest
  }

  /** A non-empty string with no whitespace at either end. */
  predicate Trimmed(t: string) {
    t != [] && !IsWhitespace(t[0]) && !IsWhitespace(t[|t| - 1])
  }

  /** `attrValue.split(/;\s*\/).map((s) => s.trim()).filter(Boolean)`: the non-blank directives. */
  function Directives(s: string): (ds: seq<string>)
    ensures forall d <- ds :: Trimmed(d)
  {
    NonBlankTrimmed(Split(s, IsSemicolon))
  }

  /**
   * `directive.split(/\s+/).map((s) => s.trim()).filter(Boolean)`: the maximal
   * runs of non-whitespace. A directive that starts with a non-whitespace
   * character has at least one token, and the first one starts there.
   */
  function Tokens(d: string): (ts: seq<string>)
    ensures forall t <- ts :: t != [] && NoWhitespace(t)
    ensures d == [] ==> ts == []
    ensures d != [] && !IsWhitespace(d[0]) ==> ts != [] && ts[0] != [] && ts[0][0] == d[0]
  {
    var pieces := Split(d, IsWhitespace);
    assert forall p <- pieces :: NoWhitespace(p) by {
      forall p <- pieces ensures NoWhitespace(p) { assert NoSeparator(p, IsWhitespace); }
    }
    if d != [] && !IsWhitespace(d[0]) then
      FirstPieceKept(pieces, d[0]);
      NonBlankTrimmed(pieces)
    else
      NonBlankTrimmed(pieces)
  }

  /** Trimming keeps a string that already starts and ends with non-whitespace. */
  lemma TrimKeepsTrimmed(t: string)
    requires Trimmed(t)
    ensures Trim(t) == t
  {
    assert TrimStart(t) == t;
  }

  /** A directive that runs up to the first `;` is the first directive, as it is. */
  lemma DirectivesCons(d: string, rest: string)
    requires Trimmed(d) && NoSeparator(d, IsSemicolon)
    ensures Directives(d + ";" + rest) == [d] + Directives(rest)
  {
    SplitAtFirst(d, ';', rest, IsSemicolon);
    var pieces := Split(d + ";" + rest, IsSemicolon);
    assert pieces[1..] == Split(rest, IsSemicolon);
    TrimKeepsTrimmed(d);
  }

  /** Text without `;` that starts and ends with non-whitespace is one directive. */
  lemma DirectivesSingle(d: string)
    requires Trimmed(d) && NoSeparator(d, IsSemicolon)
    ensures Directives(d) == [d]
  {
    SplitNoSeparator(d, IsSemicolon);
    TrimKeepsTrimmed(d);
  }

  /** A word followed by whitespace is the first token. */
  lemma TokensCons(w: string, c: char, rest: string)
    requires w != [] && NoWhitespace(w) && IsWhitespace(c)
    ensures Tokens(w + [c] + rest) == [w] + Tokens(rest)
  {
    assert NoSeparator(w, IsWhitespace);
    SplitAtFirst(w, c, rest, IsWhitespace);
    NonBlankTrimmedCons(w, Split(rest, IsWhitespace));
  }

  /** A piece that trims to itself leads the result. */
  lemma NonBlankTrimmedCons(w: string, pieces: seq<string>)
    requires w != [] && NoWhitespace(w)
    ensures NonBlankTrimmed([w] + pieces) == [w] + NonBlankTrimmed(pieces)
  {
    assert ([w] + pieces)[1..] == pieces;
    assert Trim(w) == w;
  }

  /** A single word is a single token. */
  lemma TokensSingle(w: string)
    requires w != [] && NoWhitespace(w)
    ensures Tokens(w) == [w]
  {
    assert NoSeparator(w, IsWhitespace);
    SplitNoSeparator(w, IsWhitespace);
    assert Trim(w) == w;
  }

  /** Trimming and filtering works piece by piece: it distributes over concatenation. */
  lemma {:induction false} NonBlankTrimmedAppend(a: seq<string>, b: seq<string>)
    ensures NonBlankTrimmed(a + b) == NonBlankTrimmed(a) + NonBlankTrimmed(b)
  {
    if a == [] {
      assert a + b == b;
    } else {
      var h := if Trim(a[0]) == [] then [] else [Trim(a[0])];
      assert (a + b)[0] == a[0];
      assert (a + b)[1..] == a[1..] + b;
      assert NonBlankTrimmed(a + b) == h + NonBlankTrimmed(a[1..] + b);
      assert NonBlankTrimmed(a) == h + NonBlankTrimmed(a[1..]);
      NonBlankTrimmedAppend(a[1..], b);
      ConcatAssoc(h, NonBlankTrimmed(a[1..]), NonBlankTrimmed(b));
    }
  }

  lemma ConcatAssoc(x: seq<string>, y: seq<string>, z: seq<string>)
    ensures x + (y + z) == (x + y) + z
  {
  }

  /** One piece gives its trim, or nothing when it is blank. */
  lemma NonBlankTrimmedSingle(p: string)
    ensures NonBlankTrimmed([p]) == if Trim(p) == [] then [] else [Trim(p)]
  {
    assert [p][1..] == [];
  }

  /** The text up to the first `;` gives its trim as a directive, or nothing when blank; the rest follows. */
  lemma DirectivesSplit(a: string, rest: string)
    requires NoSeparator(a, IsSemicolon)
    ensures Directives(a + ";" + rest) == NonBlankTrimmed([a]) + Directives(rest)
  {
    SplitAtFirst(a, ';', rest, IsSemicolon);
    NonBlankTrimmedAppend([a], Split(rest, IsSemicolon));
  }

  /** A blank piece between separators is skipped. */
  lemma DirectivesSkipBlank(b: string, rest: string)
    requires NoSeparator(b, IsSemicolon) && forall i :: 0 <= i < |b| ==> IsWhitespace(b[i])
    ensures Directives(b + ";" + rest) == Directives(rest)
  {
    DirectivesSplit(b, rest);
    NonBlankTrimmedSingle(b);
  }

  /** Text after the last `;` gives its trim as the last directive, or nothing when blank. */
  lemma DirectivesLast(a: string)
    requires NoSeparator(a, IsSemicolon)
    ensures Directives(a) == NonBlankTrimmed([a])
  {
    SplitNoSeparator(a, IsSemicolon);
  }

  /** Leading whitespace gives no token. */
  lemma TokensSkipWhitespace(c: char, rest: string)
    requires IsWhitespace(c)
    ensures Tokens([c] + rest) == Tokens(rest)
  {
    assert ([c] + rest)[1..] == rest;
    var pieces := Split(rest, IsWhitespace);
    assert Split([c] + rest, IsWhitespace) == [""] + pieces;
    assert ([""] + pieces)[1..] == pieces;
  }

  /** A first piece that starts with a non-whitespace character survives trimming and filtering. */
  lemma FirstPieceKept(pieces: seq<string>, c: char)
    requires pieces != [] && pieces[0] != [] && pieces[0][0] == c && !IsWhitespace(c)
    requires forall p <- pieces :: NoWhitespace(p)
    ensures NonBlankTrimmed(pieces) != [] && NonBlankTrimmed(pieces)[0] != []
    ensures NonBlankTrimmed(pieces)[0][0] == c
  {
    assert NoWhitespace(pieces[0]);
    assert Trim(pieces[0]) == pieces[0];
  }
}
