/**
 * `extract_vars`: `set(re.findall(r"\{\{(.*?)\}\}", template))`, written as an
 * explicit left-to-right scanner instead of a regular-expression engine.
 */
module Extract {
  import opened Wrappers
  import opened Strings

  /** The marker `"{{" + key + "}}"` that `interpolate_vars` looks for. */
  function Marker(key: string): string {
    "{{" + key + "}}"
  }

  /** The opening delimiter `{{` starts at index `i` of `s`. */
  predicate OpensAt(s: string, i: nat) {
    i + 2 <= |s| && s[i] == '{' && s[i + 1] == '{'
  }

  /** The closing delimiter `}}` starts at index `j` of `s`. */
  predicate ClosesAt(s: string, j: nat) {
    j + 2 <= |s| && s[j] == '}' && s[j + 1] == '}'
  }

  /** A name the scanner can return: `.` never matches a newline, and the lazy
      `.*?` stops at the first `}}`, so no `}}` starts inside the name. */
  predicate CapturedName(n: string) {
    && '\n' !in n
    && forall j: nat | j < |n| :: !ClosesAt(n + "}}", j)
  }

  /** The lazy group `(.*?)\}\}` run on `s`, the text that follows an opening
      `{{`: the index of the first `}}`, or None when a newline or the end of
      `s` comes before any `}}`. */
  function CloseIndex(s: string): (r: Option<nat>)
    ensures r.Some? ==>
      && ClosesAt(s, r.value)
      && '\n' !in s[..r.value]
      && forall j: nat | j < r.value :: !ClosesAt(s, j)
    ensures r.None? ==> forall j: nat | ClosesAt(s, j) :: '\n' in s[..j]
    decreases |s|
  {
    if ClosesAt(s, 0) then Some(0)
    else if s == [] || s[0] == '\n' then None
    else
      match CloseIndex(s[1..])
      case Some(j) =>
        forall k: nat | k < j + 1
          ensures !ClosesAt(s, k)
        {
          if k > 0 {
            assert ClosesAt(s, k) == ClosesAt(s[1..], k - 1);
          }
        }
        assert s[..j + 1] == [s[0]] + s[1..][..j];
        Some(j + 1)
      case None =>
        assert forall k: nat | k + 1 <= |s| :: ClosesAt(s, k + 1) == ClosesAt(s[1..], k);
        assert forall k: nat | 1 <= k <= |s| :: s[..k] == [s[0]] + s[1..][..k - 1];
        None
  }

  /** `re.findall` with the single group: the captured names in the order the
      scan meets them. When the match attempted at the start of `s` fails, the
      scan moves on by one character; after a match it resumes after `}}`. */
  function FindAll(s: string): (r: seq<string>)
    ensures forall k | 0 <= k < |r| :: CapturedName(r[k]) && Contains(s, Marker(r[k]))
    decreases |s|
  {
    if s == [] then []
    else if OpensAt(s, 0) then
      match CloseIndex(s[2..])
      case Some(j) =>
        MatchAtStart(s, j);
        var name := s[2..2 + j];
        var rest := FindAll(s[j + 4..]);
        FoundBeforeRest(s, j + 4, name, rest);
        [name] + rest
      case None =>
        ContainsInSuffix(s, 1, FindAll(s[1..]));
        FindAll(s[1..])
    else
      ContainsInSuffix(s, 1, FindAll(s[1..]));
      FindAll(s[1..])
  }

  /** `extract_vars`: the distinct names, as a set. */
  function ExtractVars(template: string): (r: set<string>)
    ensures forall n | n in r :: CapturedName(n) && Contains(template, Marker(n))
  {
    set n | n in FindAll(template)
  }

  /** The name that `CloseIndex` delimits is one the scanner can return. */
  lemma NameIsCaptured(s: string, j: nat)
    requires CloseIndex(s) == Some(j)
    ensures CapturedName(s[..j])
  {
    var n := s[..j];
    assert n + "}}" == s[..j + 2];
    forall k: nat | k < |n|
      ensures !ClosesAt(n + "}}", k)
    {
      assert ClosesAt(n + "}}", k) == ClosesAt(s, k);
    }
  }

  /** A match at the start of `s`: its name is one the scanner can return,
      and its marker is the prefix of `s` that the match consumes. */
  lemma MatchAtStart(s: string, j: nat)
    requires OpensAt(s, 0) && CloseIndex(s[2..]) == Some(j)
    ensures j + 4 <= |s| && CapturedName(s[2..2 + j]) && Contains(s, Marker(s[2..2 + j]))
  {
    var name := s[2..2 + j];
    NameIsCaptured(s[2..], j);
    assert s[2..][..j] == name;
    assert s[..j + 4] == Marker(name);
    assert OccursAt(s, Marker(name), 0);
  }

  /** A name found at the start, followed by the names found in the suffix
      from `d`: all of them are captured names whose markers occur in `s`. */
  lemma FoundBeforeRest(s: string, d: nat, name: string, rest: seq<string>)
    requires d <= |s|
    requires CapturedName(name) && Contains(s, Marker(name))
    requires forall k | 0 <= k < |rest| :: CapturedName(rest[k]) && Contains(s[d..], Marker(rest[k]))
    ensures forall k | 0 <= k < |[name] + rest| ::
      CapturedName(([name] + rest)[k]) && Contains(s, Marker(([name] + rest)[k]))
  {
    ContainsInSuffix(s, d, rest);
    var r := [name] + rest;
    assert forall k | 1 <= k < |r| :: r[k] == rest[k - 1];
  }

  /** What a suffix of `s` contains, `s` contains. */
  lemma ContainsInSuffix(s: string, d: nat, names: seq<string>)
    requires d <= |s|
    requires forall k | 0 <= k < |names| :: Contains(s[d..], Marker(names[k]))
    ensures forall k | 0 <= k < |names| :: Contains(s, Marker(names[k]))
  {
    forall k | 0 <= k < |names|
      ensures Contains(s, Marker(names[k]))
    {
      var m := Marker(names[k]);
      var i: nat :| i <= |s[d..]| && OccursAt(s[d..], m, i);
      assert s[d + i..d + i + |m|] == s[d..][i..i + |m|];
      assert OccursAt(s, m, d + i);
    }
  }

  /** A template without `{{` has no placeholders. */
  lemma NoOpeningNoVars(template: string)
    requires !Contains(template, "{{")
    ensures ExtractVars(template) == {}
  {
    if n :| n in ExtractVars(template) {
      var m := Marker(n);
      var i: nat :| i <= |template| && OccursAt(template, m, i);
      assert template[i..i + 2] == m[..2] == "{{";
      assert OccursAt(template, "{{", i);
      assert false;
    }
  }

  /** The scan finds nothing exactly when every `{{` is followed by a newline
      or by the end of the text before any `}}`. */
  lemma {:induction false} NoVarsIff(template: string)
    ensures ExtractVars(template) == {} <==>
      forall i: nat | OpensAt(template, i) :: CloseIndex(template[i + 2..]).None?
  {
    FindAllEmptyIff(template);
    if FindAll(template) != [] {
      assert FindAll(template)[0] in ExtractVars(template);
    }
  }

  lemma {:induction false} FindAllEmptyIff(s: string)
    ensures FindAll(s) == [] <==> forall i: nat | OpensAt(s, i) :: CloseIndex(s[i + 2..]).None?
    decreases |s|
  {
    if s != [] {
      FindAllEmptyIff(s[1..]);
      forall i: nat | OpensAt(s[1..], i)
        ensures OpensAt(s, i + 1) && s[i + 1 + 2..] == s[1..][i + 2..]
      {
      }
      if OpensAt(s, 0) && CloseIndex(s[2..]).Some? {
        assert FindAll(s) != [];
      } else {
        assert FindAll(s) == FindAll(s[1..]);
        if forall i: nat | OpensAt(s[1..], i) :: CloseIndex(s[1..][i + 2..]).None? {
          forall i: nat | OpensAt(s, i) ensures CloseIndex(s[i + 2..]).None? {
            if i > 0 {
              assert OpensAt(s[1..], i - 1);
            }
          }
        }
      }
    }
  }
}
