/**
  * `generateIdFromName`, which Section and Tab both use to derive a component id
  * from its name: strip a whole-string translation call `__('...')` / `trans("...")`,
  * turn every run of characters other than ASCII letters and digits into one `_`,
  * lower-case, and trim `_` from both ends.
  */
module IdGen {
  import opened Php

  predicate IsQuote(c: char)
  {
    c == '\'' || c == '"'
  }

  predicate IsUnderscore(c: char)
  {
    c == '_'
  }

  predicate NotAlnum(c: char)
  {
    !IsAlnum(c)
  }

  /** No two adjacent underscores. */
  predicate NoDoubleUnderscore(s: string)
  {
    forall i :: 0 < i < |s| ==> !(s[i - 1] == '_' && s[i] == '_')
  }

  predicate IsIdChar(c: char)
  {
    ('a' <= c <= 'z') || ('0' <= c <= '9') || c == '_'
  }

  /** `! $this->id` in Section and Tab `setUp`: no id, or an id PHP treats as false ("" or "0"). */
  predicate IdUnset(id: Option<string>)
  {
    id.None? || !Truthy(id.value)
  }

  /** The shape of every generated id: lower-case letters, digits and single inner underscores. */
  predicate IsId(s: string)
  {
    && (forall i :: 0 <= i < |s| ==> IsIdChar(s[i]))
    && NoDoubleUnderscore(s)
    && (s != [] ==> s[0] != '_' && s[|s| - 1] != '_')
  }

  /** The length of the call prefix `__(` or `trans(` that `name` starts with, or 0. */
  function CallPrefix(name: string): (p: nat)
    ensures p == 0 || p == 3 || p == 6
    ensures p <= |name|
  {
    if |name| >= 3 && name[..3] == "__(" then 3
    else if |name| >= 6 && name[..6] == "trans(" then 6
    else 0
  }

  /**
    * `name` is exactly one call `__(q inner q)` or `trans(q inner q)`, with `q` either quote,
    * followed by `t`, which is nothing or one final newline.
    */
  predicate WrapsCall(name: string, inner: string, t: string)
  {
    var p := CallPrefix(name);
    var m := p + 1 + |inner|;
    && p != 0 && inner != [] && '\n' !in inner && (t == "" || t == "\n")
    && |name| == m + 2 + |t|
    && IsQuote(name[p]) && name[p + 1..m] == inner
    && IsQuote(name[m]) && name[m + 1] == ')' && name[m + 2..] == t
  }

  /**
    * What follows the call prefix: a quote, the group, a quote and `)`, then the end or one
    * final newline. The replacement is the group, with that newline kept.
    */
  function Unquote(arg: string): (r: Option<string>)
    ensures r.Some? ==> |r.value| + 3 <= |arg|
  {
    if arg == [] || !IsQuote(arg[0]) then None
    else
      var rest := arg[1..];
      var n := |rest|;
      if n >= 3 && IsQuote(rest[n - 2]) && rest[n - 1] == ')' && '\n' !in rest[..n - 2] then
        Some(rest[..n - 2])
      else if n >= 4 && rest[n - 1] == '\n' && rest[n - 2] == ')' && IsQuote(rest[n - 3])
        && '\n' !in rest[..n - 3] then
        Some(rest[..n - 3] + "\n")
      else
        None
  }

  /**
    * `preg_replace('/^(?:__|trans)\(['"](.+?)['"]\)$/', '$1', $name)`. The pattern is
    * anchored at both ends, the group is non-empty and holds no newline (`.`), the two
    * quotes are chosen independently, and `$` also matches just before a final newline,
    * which the replacement then keeps.
    */
  function StripTranslation(name: string): (cleaned: string)
    ensures cleaned != name ==> CallPrefix(name) != 0 && |cleaned| < |name|
  {
    var p := CallPrefix(name);
    if p == 0 then name
    else match Unquote(name[p..]) {
      case None => name
      case Some(inner) => inner
    }
  }

  /**
    * The pattern is anchored at both ends: a name that is not exactly one call, optionally
    * followed by one final newline, is left unchanged.
    */
  lemma StripTranslationOnlyUnwraps(name: string)
    ensures var cleaned := StripTranslation(name);
      cleaned != name ==>
        || WrapsCall(name, cleaned, "")
        || (cleaned != [] && cleaned[|cleaned| - 1] == '\n' && WrapsCall(name, cleaned[..|cleaned| - 1], "\n"))
  {
    var p := CallPrefix(name);
    if p != 0 && Unquote(name[p..]).Some? {
      var rest := name[p..][1..];
      assert rest == name[p + 1..];
      var n := |rest|;
      if n >= 3 && IsQuote(rest[n - 2]) && rest[n - 1] == ')' && '\n' !in rest[..n - 2] {
        assert name[p + 1..p + 1 + (n - 2)] == rest[..n - 2];
        assert WrapsCall(name, rest[..n - 2], "");
      } else {
        var inner := rest[..n - 3];
        assert (inner + "\n")[..|inner|] == inner;
        assert name[p + 1..p + 1 + |inner|] == inner;
        assert name[p + 1 + |inner| + 2..] == "\n";
        assert WrapsCall(name, inner, "\n");
      }
    }
  }

  /** The run of characters other than ASCII letters and digits at the front of `s`, removed. */
  function SkipSeparators(s: string): (t: string)
    ensures |t| <= |s|
    decreases |s|
  {
    if s != [] && NotAlnum(s[0]) then SkipSeparators(s[1..]) else s
  }

  /** What `SkipSeparators` removes is a run of separators, and what it keeps starts with a letter or digit. */
  lemma {:induction false} SkipSeparatorsSpec(s: string)
    ensures var t := SkipSeparators(s);
      && |t| <= |s| && t == s[|s| - |t|..]
      && (forall i :: 0 <= i < |s| - |t| ==> NotAlnum(s[i]))
      && (t != [] ==> IsAlnum(t[0]))
    decreases |s|
  {
    if s != [] && NotAlnum(s[0]) {
      SkipSeparatorsSpec(s[1..]);
      var t := SkipSeparators(s);
      assert s[1..][|s| - 1 - |t|..] == s[|s| - |t|..];
      assert forall i :: 1 <= i < |s| - |t| ==> s[i] == s[1..][i - 1];
    }
  }

  /**
    * `preg_replace('/[^a-zA-Z0-9]+/', '_', $s)`: each maximal run of characters that are
    * not ASCII letters or digits (the underscore among them) becomes a single `_`.
    */
  function CollapseNonAlnum(s: string): string
    decreases |s|
  {
    if s == [] then []
    else if IsAlnum(s[0]) then [s[0]] + CollapseNonAlnum(s[1..])
    else ['_'] + CollapseNonAlnum(SkipSeparators(s[1..]))
  }

  /** After the replacement only letters, digits and single underscores remain. */
  lemma {:induction false} CollapseShape(s: string)
    ensures var r := CollapseNonAlnum(s);
      && (forall i :: 0 <= i < |r| ==> IsAlnum(r[i]) || r[i] == '_')
      && NoDoubleUnderscore(r)
      && (s != [] ==> r != [] && r[0] == (if IsAlnum(s[0]) then s[0] else '_'))
    decreases |s|
  {
    if s != [] {
      var t := if IsAlnum(s[0]) then s[1..] else SkipSeparators(s[1..]);
      SkipSeparatorsSpec(s[1..]);
      CollapseShape(t);
      var rt := CollapseNonAlnum(t);
      var r := CollapseNonAlnum(s);
      assert r == [r[0]] + rt;
      assert forall i :: 1 <= i < |r| ==> r[i] == rt[i - 1];
      if !IsAlnum(s[0]) && t != [] {
        assert IsAlnum(rt[0]);
      }
    }
  }

  /** `generateIdFromName($name)` (Section.php and Tab.php). */
  function GenerateIdFromName(name: string): string
  {
    TrimBy(Lower(CollapseNonAlnum(StripTranslation(name))), IsUnderscore)
  }

  /** Every generated id has the shape of an id, whatever the name. */
  lemma GenerateIdIsId(name: string)
    ensures IsId(GenerateIdFromName(name))
  {
    var collapsed := CollapseNonAlnum(StripTranslation(name));
    CollapseShape(StripTranslation(name));
    LowerKeepsShape(collapsed);
    TrimUnderscoresShape(Lower(collapsed));
  }

  /** Lower-casing a string of letters, digits and single underscores gives id characters. */
  lemma LowerKeepsShape(s: string)
    requires forall i :: 0 <= i < |s| ==> IsAlnum(s[i]) || s[i] == '_'
    requires NoDoubleUnderscore(s)
    ensures forall i :: 0 <= i < |Lower(s)| ==> IsIdChar(Lower(s)[i])
    ensures NoDoubleUnderscore(Lower(s))
  {
    var l := Lower(s);
    forall i | 0 < i < |l| ensures !(l[i - 1] == '_' && l[i] == '_') {
      assert s[i - 1] == '_' <==> l[i - 1] == '_';
    }
  }

  /** A slice of a string has no double underscore when the string has none. */
  lemma SliceNoDouble(s: string, a: nat, b: nat)
    requires a <= b <= |s| && NoDoubleUnderscore(s)
    ensures NoDoubleUnderscore(s[a..b])
  {
    var t := s[a..b];
    forall i | 0 < i < |t| ensures !(t[i - 1] == '_' && t[i] == '_') {
      assert t[i - 1] == s[a + i - 1] && t[i] == s[a + i];
    }
  }

  /** A slice of a string of id characters is a string of id characters. */
  lemma SliceIdChars(s: string, a: nat, b: nat)
    requires a <= b <= |s| && forall i :: 0 <= i < |s| ==> IsIdChar(s[i])
    ensures forall i :: 0 <= i < b - a ==> IsIdChar(s[a..b][i])
  {
    forall i | 0 <= i < b - a ensures IsIdChar(s[a..b][i]) {
      assert s[a..b][i] == s[a + i];
    }
  }

  /** Trimming `_` keeps id characters and single underscores, and removes them at the ends. */
  lemma TrimUnderscoresShape(s: string)
    requires forall i :: 0 <= i < |s| ==> IsIdChar(s[i])
    requires NoDoubleUnderscore(s)
    ensures IsId(TrimBy(s, IsUnderscore))
  {
    var r := TrimBy(s, IsUnderscore);
    var k := TrimByIsSlice(s, IsUnderscore);
    if r != [] {
      assert !IsUnderscore(r[0]) && !IsUnderscore(r[|r| - 1]);
      assert s[k] == r[0] && s[k + |r| - 1] == r[|r| - 1];
    }
    SliceIsId(s, k, k + |r|);
  }

  /** A slice of id characters and single underscores whose ends are not `_` is an id. */
  lemma SliceIsId(s: string, a: nat, b: nat)
    requires a <= b <= |s| && NoDoubleUnderscore(s) && forall i :: 0 <= i < |s| ==> IsIdChar(s[i])
    requires a < b ==> s[a] != '_' && s[b - 1] != '_'
    ensures IsId(s[a..b])
  {
    SliceNoDouble(s, a, b);
    SliceIdChars(s, a, b);
  }

  /**
    * A whole-string `__('x')` or `trans("x")`, optionally followed by one final newline, is
    * replaced by its inner text, and the newline is kept.
    */
  lemma {:induction false} UnwrapsTranslationCall(callee: string, q1: char, inner: string, q2: char, t: string)
    requires callee == "__" || callee == "trans"
    requires IsQuote(q1) && IsQuote(q2)
    requires inner != [] && '\n' !in inner
    requires t == "" || t == "\n"
    ensures StripTranslation(callee + "(" + [q1] + inner + [q2] + ")" + t) == inner + t
  {
    var r := [q1] + inner + [q2] + ")" + t;
    var name := callee + "(" + r;
    assert name == callee + "(" + [q1] + inner + [q2] + ")" + t;
    CallPrefixOf(callee, r);
    assert name[|callee| + 1..] == r;
    UnquoteCall(q1, inner, q2, t);
  }

  lemma UnquoteCall(q1: char, inner: string, q2: char, t: string)
    requires IsQuote(q1) && IsQuote(q2)
    requires inner != [] && '\n' !in inner
    requires t == "" || t == "\n"
    ensures Unquote([q1] + inner + [q2] + ")" + t) == Some(inner + t)
  {
    var arg := [q1] + inner + [q2] + ")" + t;
    assert arg[0] == q1;
    var rest := arg[1..];
    assert rest == inner + [q2] + ")" + t;
    if t == "" {
      assert rest[..|rest| - 2] == inner == inner + t;
    } else {
      assert rest[|rest| - 1] == '\n';
      assert rest[..|rest| - 3] == inner;
    }
  }

  /** A name that starts with `__(` or `trans(` has that call prefix. */
  lemma CallPrefixOf(callee: string, r: string)
    requires callee == "__" || callee == "trans"
    ensures CallPrefix(callee + "(" + r) == |callee| + 1
  {
    var name := callee + "(" + r;
    assert name[..|callee| + 1] == callee + "(";
    if callee == "trans" {
      assert name[..3] != "__(" by { assert name[0] == 't'; }
    }
  }

  /** Text after the closing parenthesis keeps the anchored pattern from matching: `__('a') b` is left alone. */
  lemma TrailingTextNotUnwrapped()
    ensures StripTranslation("__('a') b") == "__('a') b"
  {
    var name := "__('a') b";
    assert name[..3] == "__(";
  }

  /** Characters that are ASCII letters or digits, in order. */
  function AlnumOnly(s: string): string
  {
    if s == [] then []
    else (if IsAlnum(s[0]) then [s[0]] else []) + AlnumOnly(s[1..])
  }

  lemma {:induction false} AlnumOnlyAppend(a: string, b: string)
    ensures AlnumOnly(a + b) == AlnumOnly(a) + AlnumOnly(b)
  {
    if a == [] {
      assert a + b == b;
    } else {
      var ab := a + b;
      assert ab[0] == a[0];
      assert ab[1..] == a[1..] + b;
      AlnumOnlyAppend(a[1..], b);
      var head := if IsAlnum(a[0]) then [a[0]] else [];
      calc {
        AlnumOnly(ab);
        head + AlnumOnly(ab[1..]);
        head + (AlnumOnly(a[1..]) + AlnumOnly(b));
        (head + AlnumOnly(a[1..])) + AlnumOnly(b);
      }
    }
  }

  lemma {:induction false} AlnumOnlyOfNone(s: string)
    requires forall i :: 0 <= i < |s| ==> !IsAlnum(s[i])
    ensures AlnumOnly(s) == []
  {
    if s != [] {
      AlnumOnlyOfNone(s[1..]);
    }
  }

  lemma {:induction false} CollapseKeepsAlnum(s: string)
    ensures AlnumOnly(CollapseNonAlnum(s)) == AlnumOnly(s)
    decreases |s|
  {
    if s != [] {
      if IsAlnum(s[0]) {
        CollapseKeepsAlnum(s[1..]);
        assert CollapseNonAlnum(s) == [s[0]] + CollapseNonAlnum(s[1..]);
        AlnumOnlyAppend([s[0]], CollapseNonAlnum(s[1..]));
      } else {
        var t := s[1..];
        var rest := SkipSeparators(t);
        SkipSeparatorsSpec(t);
        CollapseKeepsAlnum(rest);
        AlnumOnlyAppend(['_'], CollapseNonAlnum(rest));
        assert t == t[..|t| - |rest|] + rest;
        AlnumOnlyAppend(t[..|t| - |rest|], rest);
        AlnumOnlyOfNone(t[..|t| - |rest|]);
      }
    }
  }

  lemma {:induction false} LowerKeepsAlnum(s: string)
    ensures AlnumOnly(Lower(s)) == Lower(AlnumOnly(s))
  {
    if s != [] {
      LowerKeepsAlnum(s[1..]);
      assert Lower(s) == [LowerChar(s[0])] + Lower(s[1..]);
      AlnumOnlyAppend([LowerChar(s[0])], Lower(s[1..]));
      var head := if IsAlnum(s[0]) then [s[0]] else [];
      assert Lower(head + AlnumOnly(s[1..])) == Lower(head) + Lower(AlnumOnly(s[1..]));
    }
  }

  lemma {:induction false} TrimStartKeepsAlnum(s: string)
    ensures AlnumOnly(TrimStart(s, IsUnderscore)) == AlnumOnly(s)
  {
    if s != [] && s[0] == '_' {
      TrimStartKeepsAlnum(s[1..]);
    }
  }

  lemma {:induction false} TrimEndKeepsAlnum(s: string)
    ensures AlnumOnly(TrimEnd(s, IsUnderscore)) == AlnumOnly(s)
  {
    if s != [] && s[|s| - 1] == '_' {
      var init := s[..|s| - 1];
      TrimEndKeepsAlnum(init);
      assert s == init + ['_'];
      AlnumOnlyAppend(init, ['_']);
    }
  }

  lemma TrimUnderscoresKeepsAlnum(s: string)
    ensures AlnumOnly(TrimBy(s, IsUnderscore)) == AlnumOnly(s)
  {
    TrimStartKeepsAlnum(s);
    TrimEndKeepsAlnum(TrimStart(s, IsUnderscore));
  }

  /**
    * Nothing alphanumeric is lost or reordered: the letters and digits of the id are
    * exactly those of the (unwrapped) name, lower-cased.
    */
  lemma GenerateIdKeepsAlnum(name: string)
    ensures AlnumOnly(GenerateIdFromName(name)) == Lower(AlnumOnly(StripTranslation(name)))
  {
    var cleaned := StripTranslation(name);
    var collapsed := CollapseNonAlnum(cleaned);
    TrimUnderscoresKeepsAlnum(Lower(collapsed));
    LowerKeepsAlnum(collapsed);
    CollapseKeepsAlnum(cleaned);
  }

  /** The tail of a string of letters, digits and single underscores is one too, and it starts with a letter or digit after an underscore. */
  lemma TailShape(s: string)
    requires s != [] && forall i :: 0 <= i < |s| ==> IsAlnum(s[i]) || s[i] == '_'
    requires NoDoubleUnderscore(s)
    ensures forall i :: 0 <= i < |s| - 1 ==> IsAlnum(s[1..][i]) || s[1..][i] == '_'
    ensures NoDoubleUnderscore(s[1..])
    ensures !IsAlnum(s[0]) && |s| > 1 ==> IsAlnum(s[1..][0])
  {
    SliceNoDouble(s, 1, |s|);
    assert s[1..|s|] == s[1..];
    assert forall i :: 0 <= i < |s| - 1 ==> s[1..][i] == s[i + 1];
    if !IsAlnum(s[0]) && |s| > 1 {
      assert !(s[0] == '_' && s[1] == '_');
    }
  }

  lemma {:induction false} CollapseFixpoint(s: string)
    requires forall i :: 0 <= i < |s| ==> IsAlnum(s[i]) || s[i] == '_'
    requires NoDoubleUnderscore(s)
    ensures CollapseNonAlnum(s) == s
    decreases |s|
  {
    if s != [] {
      var t := s[1..];
      TailShape(s);
      CollapseFixpoint(t);
      if IsAlnum(s[0]) {
        assert CollapseNonAlnum(s) == [s[0]] + t;
      } else {
        assert s[0] == '_';
        assert SkipSeparators(t) == t;
        assert CollapseNonAlnum(s) == ['_'] + t;
      }
      assert [s[0]] + t == s;
    }
  }

  /** Skipping a leading run stops inside `x` when `x` ends with a character it keeps. */
  lemma {:induction false} SkipAppend(x: string, y: string)
    requires x != [] && IsAlnum(x[|x| - 1])
    ensures SkipSeparators(x + y) == SkipSeparators(x) + y
    decreases |x|
  {
    if NotAlnum(x[0]) {
      assert (x + y)[1..] == x[1..] + y;
      SkipAppend(x[1..], y);
    }
  }

  /** A run of separators in front of a letter or digit is stripped entirely. */
  lemma {:induction false} SkipRun(sep: string, b: string)
    requires forall i :: 0 <= i < |sep| ==> NotAlnum(sep[i])
    requires b != [] && IsAlnum(b[0])
    ensures SkipSeparators(sep + b) == b
    decreases |sep|
  {
    if sep == [] {
      assert sep + b == b;
    } else {
      assert (sep + b)[1..] == sep[1..] + b;
      SkipRun(sep[1..], b);
    }
  }

  /** A run of separators in front of a letter or digit becomes one `_`. */
  lemma CollapseRun(sep: string, b: string)
    requires sep != [] && forall i :: 0 <= i < |sep| ==> NotAlnum(sep[i])
    requires b != [] && IsAlnum(b[0])
    ensures CollapseNonAlnum(sep + b) == "_" + CollapseNonAlnum(b)
  {
    var s := sep + b;
    assert s[0] == sep[0] && s[1..] == sep[1..] + b;
    SkipRun(sep[1..], b);
  }

  lemma DropFirstOfAppend(a: string, b: string)
    requires a != []
    ensures (a + b)[0] == a[0] && (a + b)[1..] == a[1..] + b
  {
  }

  /** The step of `CollapseJoin` at a letter or digit. */
  lemma JoinAlnumStep(a: string, tail: string, cb: string)
    requires a != [] && IsAlnum(a[0])
    requires CollapseNonAlnum(a[1..] + tail) == CollapseNonAlnum(a[1..]) + cb
    ensures CollapseNonAlnum(a + tail) == CollapseNonAlnum(a) + cb
  {
    var s := a + tail;
    DropFirstOfAppend(a, tail);
    var x := CollapseNonAlnum(a[1..]);
    calc {
      CollapseNonAlnum(s);
      [a[0]] + CollapseNonAlnum(a[1..] + tail);
      [a[0]] + (x + cb);
      ([a[0]] + x) + cb;
      CollapseNonAlnum(a) + cb;
    }
  }

  /** The step of `CollapseJoin` at any other character. */
  lemma JoinSepStep(a: string, tail: string, cb: string)
    requires |a| >= 2 && NotAlnum(a[0]) && IsAlnum(a[|a| - 1])
    requires CollapseNonAlnum(SkipSeparators(a[1..]) + tail) == CollapseNonAlnum(SkipSeparators(a[1..])) + cb
    ensures CollapseNonAlnum(a + tail) == CollapseNonAlnum(a) + cb
  {
    var s, rest := a + tail, a[1..];
    DropFirstOfAppend(a, tail);
    assert rest[|rest| - 1] == a[|a| - 1];
    SkipAppend(rest, tail);
    var x := CollapseNonAlnum(SkipSeparators(rest));
    calc {
      CollapseNonAlnum(s);
      "_" + CollapseNonAlnum(SkipSeparators(rest + tail));
      "_" + CollapseNonAlnum(SkipSeparators(rest) + tail);
      "_" + (x + cb);
      ("_" + x) + cb;
      CollapseNonAlnum(a) + cb;
    }
  }

  /**
    * The replacement starts afresh after every letter or digit: a string ending with one
    * can be replaced separately from whatever follows it.
    */
  lemma {:induction false} CollapseSplit(a: string, t: string)
    requires a != [] && IsAlnum(a[|a| - 1])
    ensures CollapseNonAlnum(a + t) == CollapseNonAlnum(a) + CollapseNonAlnum(t)
    decreases |a|
  {
    var ct := CollapseNonAlnum(t);
    var rest := a[1..];
    if |a| == 1 {
      assert rest == [];
      assert rest + t == t;
      JoinAlnumStep(a, t, ct);
    } else if IsAlnum(a[0]) {
      assert rest[|rest| - 1] == a[|a| - 1];
      CollapseSplit(rest, t);
      JoinAlnumStep(a, t, ct);
    } else {
      assert rest[|rest| - 1] == a[|a| - 1];
      var u := SkipKeepsLast(rest);
      CollapseSplit(u, t);
      JoinSepStep(a, t, ct);
    }
  }

  /**
    * Each maximal run of non-alphanumeric characters between two letters or digits becomes
    * exactly one `_`, and the two sides are replaced independently.
    */
  lemma CollapseJoin(a: string, sep: string, b: string)
    requires a != [] && IsAlnum(a[|a| - 1])
    requires sep != [] && forall i :: 0 <= i < |sep| ==> NotAlnum(sep[i])
    requires b != [] && IsAlnum(b[0])
    ensures CollapseNonAlnum(a + sep + b) == CollapseNonAlnum(a) + "_" + CollapseNonAlnum(b)
  {
    assert a + sep + b == a + (sep + b);
    CollapseSplit(a, sep + b);
    CollapseRun(sep, b);
  }

  /** Skipping the leading run of a string that ends with a letter or digit keeps that end. */
  lemma SkipKeepsLast(s: string) returns (t: string)
    requires s != [] && IsAlnum(s[|s| - 1])
    ensures t == SkipSeparators(s)
    ensures t != [] && |t| <= |s| && t[|t| - 1] == s[|s| - 1]
  {
    t := SkipSeparators(s);
    SkipSeparatorsSpec(s);
    SkipAppend(s, []);
    assert s + [] == s;
  }

  /** `strtolower` works character by character, so it distributes over concatenation. */
  lemma LowerAppend(a: string, b: string)
    ensures Lower(a + b) == Lower(a) + Lower(b)
  {
    assert forall i :: 0 <= i < |a + b| ==> Lower(a + b)[i] == (Lower(a) + Lower(b))[i];
  }

  /** A name of letters, digits and a space is not a translation call. */
  lemma WordsNotTranslated(x: string, y: string)
    requires forall i :: 0 <= i < |x| ==> IsAlnum(x[i])
    requires forall i :: 0 <= i < |y| ==> IsAlnum(y[i])
    ensures StripTranslation(x + " " + y) == x + " " + y
  {
    var n := x + " " + y;
    forall i | 0 <= i < |n| ensures n[i] != '(' {
      if i < |x| { assert n[i] == x[i]; } else if i > |x| { assert n[i] == y[i - |x| - 1]; }
    }
    NoParenNotTranslated(n);
  }

  /** A name without `(` cannot start with a call prefix, so the replacement leaves it alone. */
  lemma NoParenNotTranslated(n: string)
    requires forall i :: 0 <= i < |n| ==> n[i] != '('
    ensures CallPrefix(n) == 0 && StripTranslation(n) == n
  {
    if |n| >= 3 { assert n[..3][2] == n[2]; }
    if |n| >= 6 { assert n[..6][5] == n[5]; }
  }

  /** Lower-casing leaves a string of id characters alone. */
  lemma LowerOfIdChars(s: string)
    requires forall i :: 0 <= i < |s| ==> IsIdChar(s[i])
    ensures Lower(s) == s
  {
    forall i | 0 <= i < |s| ensures Lower(s)[i] == s[i] {
      assert IsIdChar(s[i]);
    }
  }

  /** Trimming `_` leaves a string alone whose ends are not `_`. */
  lemma TrimUnderscoresNoop(l: string)
    requires l != [] && l[0] != '_' && l[|l| - 1] != '_'
    ensures TrimBy(l, IsUnderscore) == l
  {
    assert TrimStart(l, IsUnderscore) == l;
    assert TrimEnd(l, IsUnderscore) == l;
  }

  /** The space between two words of letters and digits becomes one `_`. */
  lemma CollapseWords(x: string, y: string)
    requires x != [] && forall i :: 0 <= i < |x| ==> IsAlnum(x[i])
    requires y != [] && forall i :: 0 <= i < |y| ==> IsAlnum(y[i])
    ensures CollapseNonAlnum(x + " " + y) == x + "_" + y
  {
    CollapseJoin(x, " ", y);
    CollapseFixpoint(x);
    CollapseFixpoint(y);
  }

  /** Lower-casing `x_y` lower-cases each word and keeps the `_`, whose ends are then not `_`. */
  lemma LowerWords(x: string, y: string) returns (l: string)
    requires x != [] && forall i :: 0 <= i < |x| ==> IsAlnum(x[i])
    requires y != [] && forall i :: 0 <= i < |y| ==> IsAlnum(y[i])
    ensures l == Lower(x + "_" + y) && l == Lower(x) + "_" + Lower(y)
    ensures l != [] && l[0] != '_' && l[|l| - 1] != '_'
  {
    LowerAppend(x, "_");
    LowerAppend(x + "_", y);
    assert Lower("_") == "_";
    l := Lower(x) + "_" + Lower(y);
    assert l[0] == Lower(x)[0] && l[|l| - 1] == Lower(y)[|y| - 1];
  }

  /**
    * Two words of letters and digits separated by a space give the two words lower-cased
    * and joined by one `_` ("My Section" gives "my_section").
    */
  lemma GenerateIdOfWords(x: string, y: string)
    requires x != [] && forall i :: 0 <= i < |x| ==> IsAlnum(x[i])
    requires y != [] && forall i :: 0 <= i < |y| ==> IsAlnum(y[i])
    ensures GenerateIdFromName(x + " " + y) == Lower(x) + "_" + Lower(y)
  {
    WordsNotTranslated(x, y);
    CollapseWords(x, y);
    var l := LowerWords(x, y);
    TrimUnderscoresNoop(l);
    calc {
      GenerateIdFromName(x + " " + y);
      TrimBy(Lower(CollapseNonAlnum(x + " " + y)), IsUnderscore);
      TrimBy(Lower(x + "_" + y), IsUnderscore);
      TrimBy(l, IsUnderscore);
      l;
    }
  }

  /** A string that already has the shape of an id is its own id. */
  lemma IdIsFixpoint(s: string)
    requires IsId(s)
    ensures GenerateIdFromName(s) == s
  {
    assert forall i :: 0 <= i < |s| ==> s[i] != '(' by {
      forall i | 0 <= i < |s| ensures s[i] != '(' { assert IsIdChar(s[i]); }
    }
    NoParenNotTranslated(s);
    CollapseFixpoint(s);
    LowerOfIdChars(s);
    if s != [] { TrimUnderscoresNoop(s); }
    calc {
      GenerateIdFromName(s);
      TrimBy(Lower(CollapseNonAlnum(StripTranslation(s))), IsUnderscore);
      TrimBy(Lower(s), IsUnderscore);
      TrimBy(s, IsUnderscore);
      s;
    }
  }

  /** `generateIdFromName` is idempotent. */
  lemma GenerateIdIdempotent(name: string)
    ensures GenerateIdFromName(GenerateIdFromName(name)) == GenerateIdFromName(name)
  {
    GenerateIdIsId(name);
    IdIsFixpoint(GenerateIdFromName(name));
  }
}
