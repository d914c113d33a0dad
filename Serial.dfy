/** The text form of a feature vector: `",".join(map(str, v))` when it is
    written, `s.split(",")` and `float(token)` when it is read back. */
module Serial {
  import opened Wrappers

  const Comma: char := ','

  /** Python's `s.split(sep)` with an explicit one-character separator:
      always at least one piece, never a separator inside a piece. */
  function Split(s: string, sep: char): (r: seq<string>)
    ensures |r| >= 1
    ensures forall i :: 0 <= i < |r| ==> sep !in r[i]
    decreases |s|
  {
    if s == [] then [""]
    else
      var rest := Split(s[1..], sep);
      if s[0] == sep then [""] + rest
      else [[s[0]] + rest[0]] + rest[1..]
  }

  /** Python's `sep.join(ts)`. */
  function Join(ts: seq<string>, sep: char): string
  {
    if |ts| == 0 then ""
    else if |ts| == 1 then ts[0]
    else ts[0] + [sep] + Join(ts[1..], sep)
  }

  lemma {:induction false} JoinCons(t: string, ts: seq<string>, sep: char)
    requires |ts| >= 1
    ensures Join([t] + ts, sep) == t + [sep] + Join(ts, sep)
  {
    assert ([t] + ts)[1..] == ts;
  }

  /** Splitting and joining again gives back the original text. */
  lemma {:induction false} JoinSplit(s: string, sep: char)
    ensures Join(Split(s, sep), sep) == s
    decreases |s|
  {
    if s != [] {
      var rest := Split(s[1..], sep);
      JoinSplit(s[1..], sep);
      if s[0] == sep {
        JoinCons("", rest, sep);
      } else if |rest| == 1 {
        assert Split(s, sep) == [[s[0]] + rest[0]];
      } else {
        JoinCons(rest[0], rest[1..], sep);
        JoinCons([s[0]] + rest[0], rest[1..], sep);
        assert [rest[0]] + rest[1..] == rest;
        assert Split(s, sep) == [[s[0]] + rest[0]] + rest[1..];
      }
    }
  }

  /** A piece free of the separator splits to itself, and to itself followed
      by the rest when a separator follows it. */
  lemma {:induction false} SplitPiece(t: string, sep: char, u: string)
    requires sep !in t
    ensures Split(t, sep) == [t]
    ensures Split(t + [sep] + u, sep) == [t] + Split(u, sep)
    decreases |t|
  {
    if t == [] {
      assert [] + [sep] + u == [sep] + u;
      assert ([sep] + u)[1..] == u;
    } else {
      SplitPiece(t[1..], sep, u);
      assert (t + [sep] + u)[1..] == t[1..] + [sep] + u;
      assert [t[0]] + t[1..] == t;
    }
  }

  /** Joining a non-empty list of separator-free tokens and splitting the
      result recovers the list. */
  lemma {:induction false} SplitJoin(ts: seq<string>, sep: char)
    requires |ts| >= 1
    requires forall i :: 0 <= i < |ts| ==> sep !in ts[i]
    ensures Split(Join(ts, sep), sep) == ts
    decreases |ts|
  {
    if |ts| == 1 {
      SplitPiece(ts[0], sep, "");
    } else {
      SplitJoin(ts[1..], sep);
      SplitPiece(ts[0], sep, Join(ts[1..], sep));
      assert [ts[0]] + ts[1..] == ts;
    }
  }

  /** `str` and `float` on Python floats. The model computes with exact
      reals; `round` is the float a real number is held as, `show` writes
      that float and `parse` reads a token back as a float. */
  datatype FloatText = FloatText(show: real -> string, parse: string -> Option<real>, round: real -> real)

  /** The text of a number reads back as its float and holds no comma. */
  ghost predicate FloatTextLaws(f: FloatText) {
    && (forall x :: f.parse(f.show(x)) == Some(f.round(x)))
    && (forall x :: Comma !in f.show(x))
    && (forall x :: f.round(f.round(x)) == f.round(x))
  }

  /** Every entry held as a float. */
  function Rounded(f: FloatText, v: seq<real>): (r: seq<real>)
    ensures |r| == |v|
  {
    seq(|v|, i requires 0 <= i < |v| => f.round(v[i]))
  }

  /** The integers written in unary, with a leading '-' when negative. */
  function Unary(n: int): string {
    if n >= 0 then seq(n, _ => '1') else ['-'] + seq(-n, _ => '1')
  }

  function ReadUnary(s: string): Option<real> {
    if forall i :: 0 <= i < |s| ==> s[i] == '1' then Some(|s| as real)
    else if |s| >= 1 && s[0] == '-' && forall i :: 1 <= i < |s| ==> s[i] == '1' then Some(-((|s| - 1) as real))
    else None
  }

  /** The laws can be met: numbers held as their integer part, written in
      unary. */
  lemma FloatTextLawsSatisfiable()
    ensures FloatTextLaws(FloatText((x: real) => Unary(x.Floor), ReadUnary, (x: real) => x.Floor as real))
  {
    var f := FloatText((x: real) => Unary(x.Floor), ReadUnary, (x: real) => x.Floor as real);
    forall x: real
      ensures f.parse(f.show(x)) == Some(f.round(x)) && Comma !in f.show(x)
      ensures f.round(f.round(x)) == f.round(x)
    {
      var n := x.Floor;
      var s := Unary(n);
      if n < 0 {
        assert s[0] == '-' && |s| - 1 == -n;
        assert !(forall i :: 0 <= i < |s| ==> s[i] == '1');
      }
      assert forall i :: 0 <= i < |s| ==> s[i] == '1' || s[i] == '-';
    }
  }

  /** `[float(t) for t in ts]`: `None` when some token is not a number. */
  function ParseTokens(f: FloatText, ts: seq<string>): (r: Option<seq<real>>)
    ensures r.None? <==> exists i :: 0 <= i < |ts| && f.parse(ts[i]).None?
    ensures r.Some? ==> |r.value| == |ts| && forall i :: 0 <= i < |ts| ==> f.parse(ts[i]) == Some(r.value[i])
  {
    if ts == [] then Some([])
    else
      match f.parse(ts[0])
      case None => None
      case Some(x) =>
        match ParseTokens(f, ts[1..])
        case None => None
        case Some(xs) => Some([x] + xs)
  }

  function ShowAll(f: FloatText, v: seq<real>): seq<string> {
    seq(|v|, i requires 0 <= i < |v| => f.show(v[i]))
  }

  /** `",".join(map(str, v))` */
  function EncodeVector(f: FloatText, v: seq<real>): string {
    Join(ShowAll(f, v), Comma)
  }

  /** `[float(t) for t in s.split(",")]` */
  function DecodeVector(f: FloatText, s: string): (r: Option<seq<real>>)
    ensures r.None? <==> exists t :: t in Split(s, Comma) && f.parse(t).None?
    ensures r.Some? ==> |r.value| == |Split(s, Comma)|
    ensures r.Some? ==> forall i :: 0 <= i < |r.value| ==> f.parse(Split(s, Comma)[i]) == Some(r.value[i])
  {
    var ts := Split(s, Comma);
    var r := ParseTokens(f, ts);
    assert r.None? ==> exists i :: 0 <= i < |ts| && f.parse(ts[i]).None?;
    r
  }

  /** A non-empty vector written out and read back is the same vector, as
      floats. */
  lemma DecodeEncode(f: FloatText, v: seq<real>)
    requires FloatTextLaws(f) && |v| >= 1
    ensures DecodeVector(f, EncodeVector(f, v)) == Some(Rounded(f, v))
  {
    var ts := ShowAll(f, v);
    forall i | 0 <= i < |ts|
      ensures Comma !in ts[i] && f.parse(ts[i]) == Some(f.round(v[i]))
    {
      var x := v[i];
      assert ts[i] == f.show(x);
      assert f.parse(f.show(x)) == Some(f.round(x)) && Comma !in f.show(x);
    }
    SplitJoin(ts, Comma);
    var r := ParseTokens(f, ts);
    assert r.value == Rounded(f, v);
  }
}
