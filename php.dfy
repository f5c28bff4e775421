/**
  * The small part of PHP's value and string semantics that the component model
  * relies on: plain values, truthiness of strings, ASCII case mapping, `trim`,
  * `explode` and substring search.
  */
module Php {

  datatype Option<+T> = None | Some(value: T)

  /** A plain PHP value, as held in the form data and in the serialized props. */
  datatype Value =
    | Null
    | Bool(b: bool)
    | Int(i: int)
    | Str(s: string)
    | List(items: seq<Value>)            // an array with keys 0, 1, ..., n-1
    | Keyed(entries: seq<(nat, Value)>)  // an int-keyed array whose keys may have gaps
    | Assoc(fields: map<string, Value>)  // a string-keyed array

  /** `null` for an unset string, the string itself otherwise. */
  function OptionalString(s: Option<string>): (v: Value)
    ensures v.Null? <==> s.None?
    ensures s.Some? ==> v == Str(s.value)
  {
    match s
    case None => Null
    case Some(t) => Str(t)
  }

  /** A string is truthy in PHP unless it is "" or "0" (so `empty()` holds of exactly those two). */
  predicate Truthy(s: string)
  {
    s != "" && s != "0"
  }

  /** The class `[a-zA-Z0-9]` of a PCRE pattern without the `u` flag. */
  predicate IsAlnum(c: char)
  {
    ('a' <= c <= 'z') || ('A' <= c <= 'Z') || ('0' <= c <= '9')
  }

  predicate IsUpper(c: char)
  {
    'A' <= c <= 'Z'
  }

  /** `strtolower` on one character: ASCII only, as PHP does since 8.2. */
  function LowerChar(c: char): (d: char)
    ensures IsUpper(c) ==> d as int - 'a' as int == c as int - 'A' as int
    ensures !IsUpper(c) ==> d == c
    ensures IsAlnum(d) <==> IsAlnum(c)
  {
    if IsUpper(c) then (c as int - 'A' as int + 'a' as int) as char else c
  }

  /** `strtolower` on a string. */
  function Lower(s: string): (r: string)
  {
    seq(|s|, i requires 0 <= i < |s| => LowerChar(s[i]))
  }

  /** The characters PHP's `trim` strips by default: " \t\n\r\0\x0B". */
  predicate IsTrimChar(c: char)
  {
    c == ' ' || c == '\t' || c == '\n' || c == '\r' || c == '\0' || c == '\U{000B}'
  }

  /** `ltrim` with the character class `strip`. */
  function TrimStart(s: string, strip: char -> bool): (r: string)
    ensures |r| <= |s|
    ensures forall i :: 0 <= i < |s| - |r| ==> strip(s[i])
    ensures r != [] ==> !strip(r[0])
  {
    if s != [] && strip(s[0]) then TrimStart(s[1..], strip) else s
  }

  /** `rtrim` with the character class `strip`. */
  function TrimEnd(s: string, strip: char -> bool): (r: string)
    ensures |r| <= |s|
    ensures forall i :: |r| <= i < |s| ==> strip(s[i])
    ensures r != [] ==> !strip(r[|r| - 1]) && r[0] == s[0]
  {
    if s != [] && strip(s[|s| - 1]) then TrimEnd(s[..|s| - 1], strip) else s
  }

  /** What `ltrim` keeps is a suffix of its input. */
  lemma {:induction false} TrimStartIsSuffix(s: string, strip: char -> bool)
    ensures TrimStart(s, strip) == s[|s| - |TrimStart(s, strip)|..]
    decreases |s|
  {
    if s != [] && strip(s[0]) {
      TrimStartIsSuffix(s[1..], strip);
      assert s[1..][|s| - 1 - |TrimStart(s, strip)|..] == s[|s| - |TrimStart(s, strip)|..];
    }
  }

  /** What `rtrim` keeps is a prefix of its input. */
  lemma {:induction false} TrimEndIsPrefix(s: string, strip: char -> bool)
    ensures TrimEnd(s, strip) == s[..|TrimEnd(s, strip)|]
    decreases |s|
  {
    if s != [] && strip(s[|s| - 1]) {
      TrimEndIsPrefix(s[..|s| - 1], strip);
      assert s[..|s| - 1][..|TrimEnd(s, strip)|] == s[..|TrimEnd(s, strip)|];
    }
  }

  /** `trim` with the character class `strip`: a slice of `s` with no stripped character at either end. */
  function TrimBy(s: string, strip: char -> bool): (r: string)
    ensures |r| <= |s|
    ensures r != [] ==> !strip(r[0]) && !strip(r[|r| - 1])
  {
    TrimEnd(TrimStart(s, strip), strip)
  }

  /** What `TrimBy` keeps is one slice of its input. */
  lemma TrimByIsSlice(s: string, strip: char -> bool) returns (k: nat)
    ensures k + |TrimBy(s, strip)| <= |s|
    ensures TrimBy(s, strip) == s[k..k + |TrimBy(s, strip)|]
  {
    var left := TrimStart(s, strip);
    var r := TrimEnd(left, strip);
    assert r == TrimBy(s, strip);
    k := |s| - |left|;
    TrimStartIsSuffix(s, strip);
    TrimEndIsPrefix(left, strip);
    SliceOfSuffix(s, k, |r|);
  }

  /** The first `n` characters of the suffix from `k` are the slice from `k` to `k + n`. */
  lemma SliceOfSuffix(s: string, k: nat, n: nat)
    requires k + n <= |s|
    ensures s[k..][..n] == s[k..k + n]
  {
  }

  /** `trim($s)` with PHP's default character list. */
  function Trim(s: string): string
  {
    TrimBy(s, IsTrimChar)
  }

  /** `explode($sep, $s)` for a one-character separator. */
  function Explode(s: string, sep: char): (parts: seq<string>)
    ensures |parts| >= 1
    ensures forall i :: 0 <= i < |parts| ==> sep !in parts[i]
  {
    if s == [] then [""]
    else
      var rest := Explode(s[1..], sep);
      if s[0] == sep then [""] + rest else [[s[0]] + rest[0]] + rest[1..]
  }

  /** `implode($sep, $parts)`. */
  function Implode(parts: seq<string>, sep: char): string
  {
    if parts == [] then ""
    else if |parts| == 1 then parts[0]
    else parts[0] + [sep] + Implode(parts[1..], sep)
  }

  /** `explode` loses nothing: joining the parts with the separator gives the input back. */
  lemma {:induction false} ExplodeImplode(s: string, sep: char)
    ensures Implode(Explode(s, sep), sep) == s
  {
    if s != [] {
      ExplodeImplode(s[1..], sep);
      var rest := Explode(s[1..], sep);
      if s[0] != sep {
        if |rest| == 1 {
          assert Explode(s, sep) == [[s[0]] + rest[0]];
        } else {
          assert Explode(s, sep)[1..] == rest[1..];
        }
      }
    }
  }

  /** `str_contains($hay, $needle)`: a case-sensitive substring test; an empty needle is found in every string (PHP 8). */
  function Contains(hay: string, needle: string): (found: bool)
    ensures found <==> exists i :: OccursAt(hay, needle, i)
    decreases |hay|
  {
    if needle <= hay then
      assert OccursAt(hay, needle, 0);
      true
    else if hay == [] then
      false
    else
      var r := Contains(hay[1..], needle);
      assert r <==> exists i :: OccursAt(hay, needle, i) by {
        forall i | OccursAt(hay, needle, i)
          ensures OccursAt(hay[1..], needle, i - 1)
        {
          assert i != 0;
          OccursShift(hay, needle, i - 1);
        }
        if r {
          var j :| OccursAt(hay[1..], needle, j);
          OccursShift(hay, needle, j);
        }
      }
      r
  }

  /**
    * `stripos($hay, $needle) !== false`: the substring test with both operands lower-cased,
    * ASCII only, as PHP does since 8.2; an empty needle is found in every string.
    */
  function Stripos(hay: string, needle: string): bool
  {
    Contains(Lower(hay), Lower(needle))
  }

  /** Lower-casing twice is lower-casing once. */
  lemma LowerIdempotent(s: string)
    ensures Lower(Lower(s)) == Lower(s)
  {
    forall i | 0 <= i < |s| ensures LowerChar(LowerChar(s[i])) == LowerChar(s[i]) {
      var d := LowerChar(s[i]);
      assert !IsUpper(d);
    }
  }

  /** `stripos` ignores the case of both its operands. */
  lemma StriposIgnoresCase(hay: string, needle: string)
    ensures Stripos(hay, needle) == Stripos(Lower(hay), needle) == Stripos(hay, Lower(needle))
  {
    LowerIdempotent(hay);
    LowerIdempotent(needle);
  }

  /** On operands already lower-cased, `stripos` is the plain substring test. */
  lemma StriposOfLower(hay: string, needle: string)
    requires Lower(hay) == hay && Lower(needle) == needle
    ensures Stripos(hay, needle) == Contains(hay, needle)
  {
  }

  /** `stripos("foo", "Foo")` finds the needle at offset 0, where the case-sensitive test does not. */
  lemma StriposFindsOtherCase()
    ensures Stripos("foo", "Foo") && !Contains("foo", "Foo")
  {
    assert Lower("Foo") == "foo";
    assert Lower("foo") == "foo";
    assert OccursAt("foo", "foo", 0);
  }

  /** An occurrence in the tail is an occurrence one place further on in the whole. */
  lemma OccursShift(hay: string, needle: string, i: int)
    requires hay != [] && 0 <= i
    ensures OccursAt(hay[1..], needle, i) <==> OccursAt(hay, needle, i + 1)
  {
    if 0 <= i <= |hay| - 1 - |needle| {
      var a := hay[1..][i..i + |needle|];
      var b := hay[i + 1..i + 1 + |needle|];
      assert |a| == |b|;
      forall k | 0 <= k < |a| ensures a[k] == b[k] {
        assert a[k] == hay[i + 1 + k];
      }
      assert a == b;
    }
  }

  /** `needle` sits in `hay` at offset `i`. */
  predicate OccursAt(hay: string, needle: string, i: int)
  {
    0 <= i <= |hay| - |needle| && hay[i..i + |needle|] == needle
  }
}
