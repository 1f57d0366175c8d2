/**
 * `interpolate_vars`: for each (key, value) pair of the dictionary, in its
 * iteration order, replace every `{{key}}` in the accumulated text by the
 * value. The dictionary is a sequence of pairs in insertion order.
 */
module Interpolate {
  import opened Strings
  import opened Extract

  /** One step of the loop: `res.replace("{{" + key + "}}", val)`. */
  function Step(s: string, pair: (string, string)): string {
    ReplaceAll(s, Marker(pair.0), pair.1)
  }

  /** The left fold of `Step` over the pairs, first pair first. */
  function Interpolated(s: string, pairs: seq<(string, string)>): string
    decreases |pairs|
  {
    if pairs == [] then s else Interpolated(Step(s, pairs[0]), pairs[1..])
  }

  /** The loop of `interpolate_vars`, which reassigns the accumulator once per
      pair. */
  method InterpolateVars(template: string, valDict: seq<(string, string)>) returns (res: string)
    ensures res == Interpolated(template, valDict)
  {
    res := template;
    var i := 0;
    while i < |valDict|
      invariant 0 <= i <= |valDict|
      invariant res == Interpolated(template, valDict[..i])
    {
      InterpolatedSnoc(template, valDict[..i], valDict[i]);
      assert valDict[..i + 1] == valDict[..i] + [valDict[i]];
      res := Step(res, valDict[i]);
      i := i + 1;
    }
    assert valDict[..i] == valDict;
  }

  /** Folding one more pair applies one more step to the result so far. */
  lemma {:induction false} InterpolatedSnoc(s: string, pairs: seq<(string, string)>, last: (string, string))
    ensures Interpolated(s, pairs + [last]) == Step(Interpolated(s, pairs), last)
    decreases |pairs|
  {
    if pairs == [] {
      assert [] + [last] == [last];
    } else {
      assert (pairs + [last])[1..] == pairs[1..] + [last];
      InterpolatedSnoc(Step(s, pairs[0]), pairs[1..], last);
    }
  }

  /** Folding a concatenation folds the first part, then the second. */
  lemma {:induction false} InterpolatedAppend(s: string, front: seq<(string, string)>, back: seq<(string, string)>)
    ensures Interpolated(s, front + back) == Interpolated(Interpolated(s, front), back)
    decreases |front|
  {
    if front == [] {
      assert [] + back == back;
    } else {
      assert (front + back)[1..] == front[1..] + back;
      InterpolatedAppend(Step(s, front[0]), front[1..], back);
    }
  }

  /** A step whose marker does not occur, or whose value is its own marker,
      leaves the text unchanged. */
  lemma StepUnchanged(s: string, pair: (string, string))
    requires !Contains(s, Marker(pair.0)) || pair.1 == Marker(pair.0)
    ensures Step(s, pair) == s
  {
    if !Contains(s, Marker(pair.0)) {
      ReplaceAbsent(s, Marker(pair.0), pair.1);
    } else {
      ReplaceBySelf(s, Marker(pair.0));
    }
  }

  /** Pairs none of whose markers occur at their turn leave the template as
      it is; with no pairs at all this is the identity. */
  lemma {:induction false} InterpolatedUnchanged(s: string, pairs: seq<(string, string)>)
    requires forall k | 0 <= k < |pairs| :: !Contains(s, Marker(pairs[k].0)) || pairs[k].1 == Marker(pairs[k].0)
    ensures Interpolated(s, pairs) == s
    decreases |pairs|
  {
    if pairs != [] {
      StepUnchanged(s, pairs[0]);
      assert forall k | 0 <= k < |pairs[1..]| :: pairs[1..][k] == pairs[k + 1];
      InterpolatedUnchanged(s, pairs[1..]);
    }
  }

  /** Order dependence, first half: a value that is the marker of a LATER key
      is itself replaced by that key's value. */
  lemma LaterMarkerReplaced(a: string, b: string, v: string)
    ensures Interpolated(Marker(a), [(a, Marker(b)), (b, v)]) == v
  {
    ReplaceWhole(Marker(a), Marker(b));
    ReplaceWhole(Marker(b), v);
    assert [(a, Marker(b)), (b, v)][1..] == [(b, v)];
    assert Step(Marker(a), (a, Marker(b))) == Marker(b);
    assert Interpolated(Marker(b), [(b, v)]) == Interpolated(v, []);
  }
}
