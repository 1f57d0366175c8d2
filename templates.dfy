/**
 * Templates written as a sequence of literal text and `{{name}}` placeholders.
 * For well-formed ones (no stray `{{` in the text, names without `{`,
 * newlines, `}}` or a trailing `}`), `extract_vars` returns exactly the
 * placeholder names, and `interpolate_vars` with values that hold no `{{` and
 * no trailing `{` fills exactly the
 * placeholders whose name is a key: the sequential replacement then agrees
 * with a simultaneous one. Outside these conditions the order of the keys
 * matters, as `Interpolate.LaterMarkerReplaced` and `EarlierMarkerSurvives`
 * show.
 */
module Templates {
  import opened Strings
  import opened Extract
  import opened Interpolate

  datatype Piece = Text(text: string) | Hole(name: string)

  function PieceText(p: Piece): string {
    match p
    case Text(t) => t
    case Hole(n) => Marker(n)
  }

  /** The template string that a sequence of pieces spells. */
  function Render(ps: seq<Piece>): string
    decreases |ps|
  {
    if ps == [] then "" else PieceText(ps[0]) + Render(ps[1..])
  }

  function PieceHoles(p: Piece): seq<string> {
    match p
    case Text(_) => []
    case Hole(n) => [n]
  }

  /** The placeholder names, in order of appearance. */
  function Holes(ps: seq<Piece>): seq<string>
    decreases |ps|
  {
    if ps == [] then [] else PieceHoles(ps[0]) + Holes(ps[1..])
  }

  /** Text in which every `{` is followed, inside the text, by another
      character: it holds no `{{` and cannot start one with what follows. */
  predicate PlainText(t: string) {
    forall i | 0 <= i < |t| && t[i] == '{' :: i + 1 < |t| && t[i + 1] != '{'
  }

  /** A placeholder name without newline or `{`, and in which every `}` is
      followed, inside the name, by a character other than `}`. */
  predicate PlainName(n: string) {
    && '\n' !in n
    && '{' !in n
    && forall i | 0 <= i < |n| && n[i] == '}' :: i + 1 < |n| && n[i + 1] != '}'
  }

  predicate PlainPiece(p: Piece) {
    match p
    case Text(t) => PlainText(t)
    case Hole(n) => PlainName(n)
  }

  predicate WellFormed(ps: seq<Piece>) {
    forall i | 0 <= i < |ps| :: PlainPiece(ps[i])
  }

  lemma WellFormedTail(ps: seq<Piece>)
    requires WellFormed(ps) && ps != []
    ensures PlainPiece(ps[0]) && WellFormed(ps[1..])
  {
    forall i | 0 <= i < |ps[1..]| ensures PlainPiece(ps[1..][i]) {
      assert ps[1..][i] == ps[i + 1];
    }
  }

  /** Every key is a plain name and every value plain text. */
  predicate PlainPairs(pairs: seq<(string, string)>) {
    forall k | 0 <= k < |pairs| :: PlainName(pairs[k].0) && PlainText(pairs[k].1)
  }

  function Keys(pairs: seq<(string, string)>): set<string> {
    set k | 0 <= k < |pairs| :: pairs[k].0
  }

  /** The pieces after every placeholder named `key` became the text `v`. */
  function Fill(ps: seq<Piece>, key: string, v: string): seq<Piece>
    decreases |ps|
  {
    if ps == [] then []
    else (if ps[0] == Hole(key) then [Text(v)] else [ps[0]]) + Fill(ps[1..], key, v)
  }

  /** `Fill` for each pair in turn. */
  function FillAll(ps: seq<Piece>, pairs: seq<(string, string)>): seq<Piece>
    decreases |pairs|
  {
    if pairs == [] then ps else FillAll(Fill(ps, pairs[0].0, pairs[0].1), pairs[1..])
  }

  // ---------------------------------------------------------------- extraction

  /** The scan passes over plain text without a match. */
  lemma {:induction false} FindAllSkipsText(t: string, s: string)
    requires PlainText(t)
    ensures FindAll(t + s) == FindAll(s)
    decreases |t|
  {
    if t != [] {
      assert !OpensAt(t + s, 0);
      assert (t + s)[1..] == t[1..] + s;
      assert FindAll(t + s) == FindAll(t[1..] + s);
      assert PlainText(t[1..]) by {
        forall i | 0 <= i < |t[1..]| && t[1..][i] == '{'
          ensures i + 1 < |t[1..]| && t[1..][i + 1] != '{'
        {
          assert t[i + 1] == '{';
        }
      }
      FindAllSkipsText(t[1..], s);
    } else {
      assert t + s == s;
    }
  }

  /** The scan captures a plain placeholder whole and resumes after it. */
  lemma FindAllTakesHole(n: string, s: string)
    requires PlainName(n)
    ensures FindAll(Marker(n) + s) == [n] + FindAll(s)
  {
    var m := Marker(n) + s;
    var after := m[2..];
    assert after == n + "}}" + s;
    assert ClosesAt(after, |n|);
    assert forall j | 0 <= j < |n| :: after[j] == n[j];
    forall j: nat | j < |n|
      ensures !ClosesAt(after, j)
    {
    }
    assert after[..|n|] == n;
    assert CloseIndex(after).Some?;
    assert CloseIndex(after).value == |n|;
    assert m[2..2 + |n|] == n;
    assert m[|n| + 4..] == s;
  }

  /** The scan over one plain piece. */
  lemma FindAllPiece(p: Piece, s: string)
    requires PlainPiece(p)
    ensures FindAll(PieceText(p) + s) == PieceHoles(p) + FindAll(s)
  {
    match p
    case Text(t) =>
      FindAllSkipsText(t, s);
    case Hole(n) =>
      FindAllTakesHole(n, s);
  }

  lemma RenderCons(ps: seq<Piece>, s: string)
    requires ps != []
    ensures Render(ps) + s == PieceText(ps[0]) + (Render(ps[1..]) + s)
  {
  }

  lemma HolesCons(ps: seq<Piece>, names: seq<string>)
    requires ps != []
    ensures Holes(ps) + names == PieceHoles(ps[0]) + (Holes(ps[1..]) + names)
  {
  }

  /** On a well-formed template the scan yields exactly its placeholder
      names, in order. */
  lemma {:induction false} FindAllRender(ps: seq<Piece>, s: string)
    requires WellFormed(ps)
    ensures FindAll(Render(ps) + s) == Holes(ps) + FindAll(s)
    decreases |ps|
  {
    if ps != [] {
      WellFormedTail(ps);
      RenderCons(ps, s);
      HolesCons(ps, FindAll(s));
      FindAllPiece(ps[0], Render(ps[1..]) + s);
      FindAllRender(ps[1..], s);
    } else {
      assert Render(ps) + s == s;
    }
  }

  /** `extract_vars` of a well-formed template is the set of its placeholder
      names: nothing missed, nothing invented, repeats collapsed. */
  lemma ExtractRender(ps: seq<Piece>)
    requires WellFormed(ps)
    ensures ExtractVars(Render(ps)) == set n | n in Holes(ps)
  {
    FindAllRender(ps, "");
    assert Render(ps) + "" == Render(ps);
  }

  /** The example template, as pieces. */
  function ExamplePieces(): seq<Piece> {
    [Text("Hi "), Hole("first"), Text(", your code is "), Hole("code"), Text(". Bye "), Hole("first")]
  }

  /** The example template `Hi {{first}}, your code is {{code}}. Bye {{first}}`. */
  function ExampleTemplate(): string {
    "Hi " + Marker("first") + ", your code is " + Marker("code") + ". Bye " + Marker("first")
  }

  lemma ExampleRender()
    ensures Render(ExamplePieces()) == ExampleTemplate()
  {
    var ps := ExamplePieces();
    assert Render(ps[5..][1..]) == [] by { assert ps[5..][1..] == []; }
    assert ps[4..][1..] == ps[5..];
    assert ps[3..][1..] == ps[4..];
    assert ps[2..][1..] == ps[3..];
    assert ps[1..][1..] == ps[2..];
    assert Render(ps) == "Hi " + (Marker("first") + (", your code is " + (Marker("code") + (". Bye " + (Marker("first") + [])))));
  }

  lemma ExampleHoles()
    ensures Holes(ExamplePieces()) == ["first", "code", "first"]
  {
    var ps := ExamplePieces();
    assert Holes(ps[5..][1..]) == [] by { assert ps[5..][1..] == []; }
    assert ps[4..][1..] == ps[5..];
    assert ps[3..][1..] == ps[4..];
    assert ps[2..][1..] == ps[3..];
    assert ps[1..][1..] == ps[2..];
    assert Holes(ps) == [] + (["first"] + ([] + (["code"] + ([] + (["first"] + [])))));
  }

  lemma ExampleWellFormed()
    ensures WellFormed(ExamplePieces())
  {
    var ps := ExamplePieces();
    assert PlainText("Hi ");
    assert PlainText(", your code is ");
    assert PlainText(". Bye ");
    assert PlainName("first");
    assert PlainName("code");
    assert forall i | 0 <= i < |ps| :: PlainPiece(ps[i]);
  }

  /** The example template: repeats collapse into one name. */
  lemma ExtractExample()
    ensures ExtractVars(ExampleTemplate()) == {"first", "code"}
  {
    ExampleRender();
    ExampleHoles();
    ExampleWellFormed();
    ExtractRender(ExamplePieces());
    var names := ["first", "code", "first"];
    assert (set n | n in names) == {"first", "code"};
  }

  // ------------------------------------------------------------- substitution

  /** A marker starts with `{{`. */
  predicate StartsWithOpening(pat: string) {
    |pat| >= 2 && pat[0] == '{' && pat[1] == '{'
  }

  /** Replacing a marker passes over plain text unchanged. */
  lemma {:induction false} ReplaceSkipsText(t: string, s: string, pat: string, rep: string)
    requires PlainText(t) && StartsWithOpening(pat)
    ensures ReplaceAll(t + s, pat, rep) == t + ReplaceAll(s, pat, rep)
    decreases |t|
  {
    if t != [] {
      assert !OccursAt(t + s, pat, 0) by {
        if t[0] != '{' {
          DiffersAt(t + s, pat, 0);
        } else {
          DiffersAt(t + s, pat, 1);
        }
      }
      assert t + s == [t[0]] + (t[1..] + s);
      ReplaceCons(t[0], t[1..] + s, pat, rep);
      assert PlainText(t[1..]) by {
        forall i | 0 <= i < |t[1..]| && t[1..][i] == '{'
          ensures i + 1 < |t[1..]| && t[1..][i + 1] != '{'
        {
          assert t[i + 1] == '{';
        }
      }
      ReplaceSkipsText(t[1..], s, pat, rep);
      assert [t[0]] + (t[1..] + ReplaceAll(s, pat, rep)) == t + ReplaceAll(s, pat, rep);
    } else {
      assert t + s == s;
    }
  }

  /** Two strings that differ at an index inside the pattern do not match
      there. */
  lemma DiffersAt(m: string, pat: string, d: nat)
    requires d < |pat| && (d >= |m| || m[d] != pat[d])
    ensures !OccursAt(m, pat, 0)
  {
    if |pat| <= |m| {
      assert m[..|pat|][d] == m[d];
    }
  }

  /** The marker of one plain name never starts the marker of another. */
  lemma MarkerMismatch(n: string, k: string, s: string)
    requires PlainName(n) && PlainName(k) && n != k
    ensures !OccursAt(Marker(n) + s, Marker(k), 0)
  {
    var m := Marker(n) + s;
    var mk := Marker(k);
    assert forall i | 0 <= i < |n| :: m[i + 2] == n[i];
    assert forall i | 0 <= i < |k| :: mk[i + 2] == k[i];
    assert m[|n| + 2] == '}' && m[|n| + 3] == '}';
    assert mk[|k| + 2] == '}' && mk[|k| + 3] == '}';
    if |n| == |k| {
      var i :| 0 <= i < |n| && n[i] != k[i];
      DiffersAt(m, mk, i + 2);
    } else if |k| < |n| {
      if n[|k|] != '}' {
        DiffersAt(m, mk, |k| + 2);
      } else {
        DiffersAt(m, mk, |k| + 3);
      }
    } else {
      if k[|n|] != '}' {
        DiffersAt(m, mk, |n| + 2);
      } else {
        DiffersAt(m, mk, |n| + 3);
      }
    }
  }

  /** Replacing the marker of `k` in front of a plain placeholder `n`: it is
      replaced when the names agree and left whole otherwise. */
  lemma ReplaceHole(n: string, k: string, v: string, s: string)
    requires PlainName(n) && PlainName(k)
    ensures ReplaceAll(Marker(n) + s, Marker(k), v)
         == (if n == k then v else Marker(n)) + ReplaceAll(s, Marker(k), v)
  {
    if n == k {
      var m := Marker(n) + s;
      assert OccursAt(m, Marker(k), 0);
      assert m[|Marker(k)|..] == s;
    } else {
      ReplaceOtherHole(n, k, v, s);
    }
  }

  /** A marker without its first `{` is plain text. */
  lemma MarkerTailPlain(n: string)
    requires PlainName(n)
    ensures PlainText("{" + n + "}}")
  {
    var tail := "{" + n + "}}";
    assert forall i | 1 <= i <= |n| :: tail[i] == n[i - 1];
    assert forall i | |n| < i < |tail| :: tail[i] == '}';
  }

  /** The marker of another name passes through the replacement unchanged. */
  lemma ReplaceOtherHole(n: string, k: string, v: string, s: string)
    requires PlainName(n) && PlainName(k) && n != k
    ensures ReplaceAll(Marker(n) + s, Marker(k), v) == Marker(n) + ReplaceAll(s, Marker(k), v)
  {
    var tail := "{" + n + "}}";
    assert Marker(n) + s == ['{'] + (tail + s);
    MarkerMismatch(n, k, s);
    ReplaceCons('{', tail + s, Marker(k), v);
    MarkerTailPlain(n);
    ReplaceSkipsText(tail, s, Marker(k), v);
    assert ['{'] + (tail + ReplaceAll(s, Marker(k), v)) == Marker(n) + ReplaceAll(s, Marker(k), v);
  }

  /** Filling keeps a template well formed when the value is plain text. */
  lemma {:induction false} FillWellFormed(ps: seq<Piece>, key: string, v: string)
    requires WellFormed(ps) && PlainText(v)
    ensures WellFormed(Fill(ps, key, v))
    ensures |Fill(ps, key, v)| == |ps|
    decreases |ps|
  {
    if ps != [] {
      assert PlainPiece(ps[0]);
      assert WellFormed(ps[1..]) by {
        forall i | 0 <= i < |ps[1..]| ensures PlainPiece(ps[1..][i]) {
          assert ps[1..][i] == ps[i + 1];
        }
      }
      FillWellFormed(ps[1..], key, v);
      var head := if ps[0] == Hole(key) then [Text(v)] else [ps[0]];
      var f := Fill(ps, key, v);
      assert f == head + Fill(ps[1..], key, v);
      forall i | 0 <= i < |f| ensures PlainPiece(f[i]) {
        if i > 0 {
          assert f[i] == Fill(ps[1..], key, v)[i - 1];
        }
      }
    }
  }

  /** One step of `interpolate_vars` on a well-formed template fills exactly
      the placeholders named by its key. */
  lemma {:induction false} StepRender(ps: seq<Piece>, key: string, v: string)
    requires WellFormed(ps) && PlainName(key)
    ensures Step(Render(ps), (key, v)) == Render(Fill(ps, key, v))
    decreases |ps|
  {
    if ps != [] {
      assert PlainPiece(ps[0]);
      assert WellFormed(ps[1..]) by {
        forall i | 0 <= i < |ps[1..]| ensures PlainPiece(ps[1..][i]) {
          assert ps[1..][i] == ps[i + 1];
        }
      }
      StepRender(ps[1..], key, v);
      var rest := Render(ps[1..]);
      var f := Fill(ps, key, v);
      assert f[1..] == Fill(ps[1..], key, v);
      match ps[0]
      case Text(t) =>
        assert StartsWithOpening(Marker(key));
        ReplaceSkipsText(t, rest, Marker(key), v);
      case Hole(n) =>
        ReplaceHole(n, key, v, rest);
    } else {
      assert Render(ps) == [];
    }
  }

  /** `interpolate_vars` on a well-formed template with plain keys and values
      is the simultaneous filling of the keyed placeholders. */
  lemma {:induction false} InterpolatedRender(ps: seq<Piece>, pairs: seq<(string, string)>)
    requires WellFormed(ps) && PlainPairs(pairs)
    ensures Interpolated(Render(ps), pairs) == Render(FillAll(ps, pairs))
    ensures WellFormed(FillAll(ps, pairs))
    decreases |pairs|
  {
    if pairs != [] {
      StepRender(ps, pairs[0].0, pairs[0].1);
      FillWellFormed(ps, pairs[0].0, pairs[0].1);
      assert PlainPairs(pairs[1..]) by {
        forall k | 0 <= k < |pairs[1..]|
          ensures PlainName(pairs[1..][k].0) && PlainText(pairs[1..][k].1)
        {
          assert pairs[1..][k] == pairs[k + 1];
        }
      }
      InterpolatedRender(Fill(ps, pairs[0].0, pairs[0].1), pairs[1..]);
    }
  }

  /** Filling removes the filled name from the placeholders and keeps the
      others. */
  lemma {:induction false} FillHoles(ps: seq<Piece>, key: string, v: string)
    ensures (set n | n in Holes(Fill(ps, key, v))) == (set n | n in Holes(ps)) - {key}
    decreases |ps|
  {
    if ps != [] {
      FillHoles(ps[1..], key, v);
      var f := Fill(ps, key, v);
      assert f[1..] == Fill(ps[1..], key, v);
      var tailSet := set n | n in Holes(ps[1..]);
      var fillSet := set n | n in Holes(f[1..]);
      match ps[0]
      case Text(_) =>
        assert f[0] == ps[0];
        assert Holes(f) == Holes(f[1..]);
        assert Holes(ps) == Holes(ps[1..]);
      case Hole(n) =>
        assert Holes(ps) == [n] + Holes(ps[1..]);
        assert (set x | x in Holes(ps)) == {n} + tailSet;
        if n == key {
          assert f[0] == Text(v);
          assert Holes(f) == Holes(f[1..]);
        } else {
          assert f[0] == Hole(n);
          assert Holes(f) == [n] + Holes(f[1..]);
          assert (set x | x in Holes(f)) == {n} + fillSet;
        }
    }
  }

  lemma {:induction false} FillAllHoles(ps: seq<Piece>, pairs: seq<(string, string)>)
    ensures (set n | n in Holes(FillAll(ps, pairs))) == (set n | n in Holes(ps)) - Keys(pairs)
    decreases |pairs|
  {
    if pairs != [] {
      FillHoles(ps, pairs[0].0, pairs[0].1);
      FillAllHoles(Fill(ps, pairs[0].0, pairs[0].1), pairs[1..]);
      assert Keys(pairs) == {pairs[0].0} + Keys(pairs[1..]) by {
        forall x | x in Keys(pairs) ensures x in {pairs[0].0} + Keys(pairs[1..]) {
          var k :| 0 <= k < |pairs| && pairs[k].0 == x;
          if k > 0 {
            assert pairs[1..][k - 1] == pairs[k];
          }
        }
        forall x | x in Keys(pairs[1..]) ensures x in Keys(pairs) {
          var k :| 0 <= k < |pairs[1..]| && pairs[1..][k].0 == x;
          assert pairs[k + 1] == pairs[1..][k];
        }
      }
    } else {
      assert Keys(pairs) == {};
    }
  }

  /** The placeholders left after `interpolate_vars` are exactly those whose
      name is not a key: a template filled with all its names has none left,
      and a name missing from the dictionary stays in the output. */
  lemma InterpolateResolves(ps: seq<Piece>, pairs: seq<(string, string)>)
    requires WellFormed(ps) && PlainPairs(pairs)
    ensures ExtractVars(Interpolated(Render(ps), pairs)) == ExtractVars(Render(ps)) - Keys(pairs)
  {
    InterpolatedRender(ps, pairs);
    ExtractRender(FillAll(ps, pairs));
    ExtractRender(ps);
    FillAllHoles(ps, pairs);
  }

  /** Order dependence, second half: a value that is the marker of an EARLIER
      key survives in the output. */
  lemma EarlierMarkerSurvives(a: string, b: string, v: string)
    requires PlainName(a) && PlainName(b) && a != b
    ensures Interpolated(Marker(b), [(a, v), (b, Marker(a))]) == Marker(a)
  {
    ReplaceHole(b, a, v, "");
    assert Marker(b) + "" == Marker(b);
    assert ReplaceAll("", Marker(a), v) == "";
    ReplaceWhole(Marker(b), Marker(a));
    assert [(a, v), (b, Marker(a))][1..] == [(b, Marker(a))];
    assert Step(Marker(b), (a, v)) == Marker(b);
    assert Interpolated(Marker(b), [(b, Marker(a))]) == Interpolated(Marker(a), []);
  }
}
