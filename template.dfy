/** `string.Template.substitute` as `write` uses it to fill the document
    template: `$$` is a dollar sign, `$name` and `${name}` are replaced by
    the mapping's value, and anything else after a `$` is an error. */
module Template {
  import opened Wrappers

  /** An identifier's first character: `[_a-z]` matched ignoring case,
      ASCII only. */
  predicate IdentStart(c: char)
  {
    c == '_' || 'a' <= c <= 'z' || 'A' <= c <= 'Z'
  }

  predicate IdentChar(c: char)
  {
    IdentStart(c) || '0' <= c <= '9'
  }

  predicate ValidName(n: string)
  {
    n != [] && IdentStart(n[0]) && forall k :: 0 <= k < |n| ==> IdentChar(n[k])
  }

  /** The end of the run of identifier characters from `i`: the greedy
      `[_a-z0-9]*`. */
  function IdentEnd(t: string, i: nat): (e: nat)
    requires i <= |t|
    ensures i <= e <= |t|
    ensures forall k :: i <= k < e ==> IdentChar(t[k])
    ensures e == |t| || !IdentChar(t[e])
    decreases |t| - i
  {
    if i < |t| && IdentChar(t[i]) then IdentEnd(t, i + 1) else i
  }

  /** What follows a `$`, in the order the pattern's alternatives are
      tried: the escape, a bare name, a braced name, or nothing valid. */
  datatype Placeholder = Escape | Name(id: string) | Invalid

  /** The placeholder at the start of `t`, which starts with `$`, and its
      length. */
  function PlaceholderAt(t: string): (r: (nat, Placeholder))
    requires t != [] && t[0] == '$'
    ensures 1 <= r.0 <= |t|
    ensures r.1.Name? ==> ValidName(r.1.id)
  {
    if |t| >= 2 && t[1] == '$' then (2, Escape)
    else if |t| >= 2 && IdentStart(t[1]) then
      var e := IdentEnd(t, 2);
      (e, Name(t[1..e]))
    else if |t| >= 3 && t[1] == '{' && IdentStart(t[2]) && IdentEnd(t, 3) < |t| && t[IdentEnd(t, 3)] == '}' then
      var e := IdentEnd(t, 3);
      (e + 1, Name(t[2..e]))
    else (1, Invalid)
  }

  function Prepend(x: string, r: Result<string>): Result<string>
  {
    if r.Ok? then Ok(x + r.value) else r
  }

  /** The template filled from `m`, or the error the first bad
      placeholder raises. */
  function Substitute(t: string, m: map<string, string>): Result<string>
  {
    if t == [] then Ok([])
    else if t[0] != '$' then Prepend([t[0]], Substitute(t[1..], m))
    else
      var (n, p) := PlaceholderAt(t);
      match p
      case Escape => Prepend("$", Substitute(t[n..], m))
      case Name(id) =>
        if id in m then Prepend(m[id], Substitute(t[n..], m))
        else Err("KeyError: " + id)
      case Invalid => Err("Invalid placeholder in string")
  }

  /** A text written so the template gives it back: every `$` doubled. */
  function Escaped(a: string): (r: string)
    ensures |r| >= |a|
  {
    if a == [] then []
    else (if a[0] == '$' then "$$" else [a[0]]) + Escaped(a[1..])
  }

  /** Text without a `$` is left as it is. */
  lemma {:induction false} NoDelimiterUnchanged(t: string, m: map<string, string>)
    requires '$' !in t
    ensures Substitute(t, m) == Ok(t)
  {
    if t != [] {
      assert t[0] in t;
      assert '$' !in t[1..] by {
        forall k | 0 <= k < |t| - 1
          ensures t[1..][k] != '$'
        {
          assert t[1..][k] == t[k + 1];
          assert t[k + 1] in t;
        }
      }
      NoDelimiterUnchanged(t[1..], m);
      assert t == [t[0]] + t[1..];
    }
  }

  /** An escaped text comes out as the text itself, and the scan goes on
      after it. */
  lemma {:induction false} EscapedPrefix(a: string, rest: string, m: map<string, string>)
    ensures Substitute(Escaped(a) + rest, m) == Prepend(a, Substitute(rest, m))
  {
    if a == [] {
      assert Escaped(a) + rest == rest;
      PrependEmpty(Substitute(rest, m));
    } else {
      var head := if a[0] == '$' then "$$" else [a[0]];
      var tail := Escaped(a[1..]) + rest;
      assert Escaped(a) + rest == head + tail;
      EscapedPrefix(a[1..], rest, m);
      if a[0] == '$' {
        DollarStep(tail, m);
      } else {
        CharStep(a[0], tail, m);
      }
      PrependConcat([a[0]], a[1..], Substitute(rest, m));
      assert [a[0]] + a[1..] == a;
    }
  }

  lemma DollarStep(tail: string, m: map<string, string>)
    ensures Substitute("$$" + tail, m) == Prepend("$", Substitute(tail, m))
  {
    var t := "$$" + tail;
    assert t[2..] == tail;
    assert PlaceholderAt(t) == (2, Escape);
  }

  lemma CharStep(c: char, tail: string, m: map<string, string>)
    requires c != '$'
    ensures Substitute([c] + tail, m) == Prepend([c], Substitute(tail, m))
  {
    assert ([c] + tail)[1..] == tail;
  }

  /** An escaped text alone comes out as the text. */
  lemma EscapedAlone(a: string, m: map<string, string>)
    ensures Substitute(Escaped(a), m) == Ok(a)
  {
    EscapedPrefix(a, [], m);
    assert Escaped(a) + [] == Escaped(a);
    assert a + [] == a;
  }

  lemma PrependEmpty(r: Result<string>)
    ensures Prepend([], r) == r
  {
    if r.Ok? {
      assert [] + r.value == r.value;
    }
  }

  lemma PrependConcat(x: string, y: string, r: Result<string>)
    ensures Prepend(x, Prepend(y, r)) == Prepend(x + y, r)
  {
    if r.Ok? {
      assert x + (y + r.value) == (x + y) + r.value;
    }
  }

  /** `${name}` is replaced by the mapping's value for it, or fails when
      the mapping has none. */
  lemma BracedPlaceholder(name: string, rest: string, m: map<string, string>)
    requires ValidName(name)
    ensures Substitute("${" + name + "}" + rest, m)
      == if name in m then Prepend(m[name], Substitute(rest, m)) else Err("KeyError: " + name)
  {
    var t := "${" + name + "}" + rest;
    var e := |name| + 2;
    assert t[0] == '$' && t[1] == '{' && t[2] == name[0];
    assert forall k :: 3 <= k < e ==> t[k] == name[k - 2];
    assert t[2..e] == name;
    assert t[e] == '}';
    assert t[e + 1..] == rest;
    IdentRun(t, 3, e);
    assert PlaceholderAt(t) == (e + 1, Name(name));
  }

  /** `$name` followed by a character that cannot continue a name is
      replaced likewise. */
  lemma NamedPlaceholder(name: string, rest: string, m: map<string, string>)
    requires ValidName(name)
    requires rest == [] || !IdentChar(rest[0])
    ensures Substitute("$" + name + rest, m)
      == if name in m then Prepend(m[name], Substitute(rest, m)) else Err("KeyError: " + name)
  {
    var t := "$" + name + rest;
    var e := |name| + 1;
    assert t[0] == '$' && t[1] == name[0];
    assert forall k :: 2 <= k < e ==> t[k] == name[k - 1];
    assert t[1..e] == name;
    assert t[e..] == rest;
    IdentRun(t, 2, e);
    assert PlaceholderAt(t) == (e, Name(name));
  }

  /** A run of identifier characters ended by a non-identifier character
      or the end is what `IdentEnd` finds. */
  lemma {:induction false} IdentRun(t: string, i: nat, e: nat)
    requires i <= e <= |t|
    requires forall k :: i <= k < e ==> IdentChar(t[k])
    requires e == |t| || !IdentChar(t[e])
    ensures IdentEnd(t, i) == e
    decreases e - i
  {
    if i < e {
      IdentRun(t, i + 1, e);
    }
  }

  /** The document template's shape: a placeholder between two escaped
      texts gives the texts back around the value, and the value itself
      is not scanned again, whatever `$` it holds. */
  lemma FillsBetween(a: string, name: string, b: string, m: map<string, string>)
    requires ValidName(name) && name in m
    ensures Substitute(Escaped(a) + "${" + name + "}" + Escaped(b), m) == Ok(a + m[name] + b)
  {
    var placeholder := "${" + name + "}" + Escaped(b);
    EscapedAlone(b, m);
    BracedPlaceholder(name, Escaped(b), m);
    assert Substitute(placeholder, m) == Ok(m[name] + b);
    Regroup(Escaped(a), "${", name, "}", Escaped(b));
    EscapedPrefix(a, placeholder, m);
    assert a + (m[name] + b) == a + m[name] + b;
  }

  /** Two placeholders, as in the document template's preamble and content
      slots, are each replaced once and in place. */
  lemma FillsTwoSlots(a: string, n1: string, b: string, n2: string, c: string, m: map<string, string>)
    requires ValidName(n1) && n1 in m && ValidName(n2) && n2 in m
    ensures Substitute(Escaped(a) + "${" + n1 + "}" + Escaped(b) + "${" + n2 + "}" + Escaped(c), m)
      == Ok(a + m[n1] + b + m[n2] + c)
  {
    var tail := Escaped(b) + "${" + n2 + "}" + Escaped(c);
    FillsBetween(b, n2, c, m);
    SlotThen(n1, tail, b + m[n2] + c, m);
    RegroupTwo(Escaped(a), n1, Escaped(b), n2, Escaped(c));
    EscapedThen(a, "${" + n1 + "}" + tail, m[n1] + (b + m[n2] + c), m);
    RegroupValues(a, m[n1], b, m[n2], c);
  }

  lemma RegroupValues(a: string, x: string, b: string, y: string, c: string)
    ensures a + (x + (b + y + c)) == a + x + b + y + c
  {
  }

  lemma SlotThen(n: string, tail: string, v: string, m: map<string, string>)
    requires ValidName(n) && n in m && Substitute(tail, m) == Ok(v)
    ensures Substitute("${" + n + "}" + tail, m) == Ok(m[n] + v)
  {
    BracedPlaceholder(n, tail, m);
  }

  lemma EscapedThen(a: string, rest: string, v: string, m: map<string, string>)
    requires Substitute(rest, m) == Ok(v)
    ensures Substitute(Escaped(a) + rest, m) == Ok(a + v)
  {
    EscapedPrefix(a, rest, m);
  }

  lemma RegroupTwo(a: string, n1: string, b: string, n2: string, c: string)
    ensures a + "${" + n1 + "}" + b + "${" + n2 + "}" + c == a + ("${" + n1 + "}" + (b + "${" + n2 + "}" + c))
  {
  }

  lemma Regroup(p: string, q: string, r: string, s: string, t: string)
    ensures p + q + r + s + t == p + (q + r + s + t)
  {
  }

  /** A name the mapping lacks fails the whole substitution. */
  lemma MissingNameFails(a: string, name: string, rest: string, m: map<string, string>)
    requires ValidName(name) && name !in m
    ensures Substitute(Escaped(a) + "${" + name + "}" + rest, m).Err?
  {
    BracedPlaceholder(name, rest, m);
    Regroup(Escaped(a), "${", name, "}", rest);
    EscapedPrefix(a, "${" + name + "}" + rest, m);
  }

  /** A `$` followed by something no alternative accepts fails the whole
      substitution: here a `$` ending the text, or one before a space. */
  lemma StrayDelimiterFails(a: string, rest: string, m: map<string, string>)
    requires rest == [] || rest[0] == ' '
    ensures Substitute(Escaped(a) + "$" + rest, m).Err?
  {
    var t := "$" + rest;
    assert PlaceholderAt(t).1 == Invalid;
    assert Escaped(a) + "$" + rest == Escaped(a) + t;
    EscapedPrefix(a, t, m);
  }
}
