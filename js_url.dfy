/** Reading one query parameter out of a page address, as
    `new URLSearchParams(location.search).get(name)` does: the query is the
    text after the first `?` and before the fragment, pairs are separated by
    `&`, a name ends at its first `=`, empty pairs are skipped, `+` reads as
    a space, and the first pair with the name wins.  Percent-decoding is not
    modelled. */
module JsUrl {
  import opened Wrappers
  import opened JsText

  /** The text before the first `c` (all of `s` when there is none). */
  function Before(s: string, c: char): (t: string)
    ensures |t| <= |s| && t == s[..|t|]
    ensures c !in t
    ensures |t| < |s| ==> s[|t|] == c
  {
    if s == [] || s[0] == c then [] else [s[0]] + Before(s[1..], c)
  }

  /** The text after the first `c`, if there is one. */
  function After(s: string, c: char): (t: Option<string>)
    ensures t.None? <==> c !in s
    ensures t.Some? ==> |Before(s, c)| < |s| && t.value == s[|Before(s, c)| + 1..]
  {
    if s == [] then None
    else if s[0] == c then Some(s[1..])
    else
      var r := After(s[1..], c);
      assert c in s[1..] ==> c in s;
      assert c in s && s[0] != c ==> c in s[1..];
      r
  }

  /** `Before` stops at the first separator after a separator-free prefix. */
  lemma {:induction false} BeforePlain(a: string, b: string, c: char)
    requires c !in a
    ensures Before(a + [c] + b, c) == a
  {
    var s := a + [c] + b;
    if a == [] {
      assert s == [c] + b;
    } else {
      assert s[0] == a[0] && s[1..] == a[1..] + [c] + b;
      BeforePlain(a[1..], b, c);
      assert [a[0]] + a[1..] == a;
    }
  }

  /** `After` skips a separator-free prefix and the separator after it. */
  lemma {:induction false} AfterPlain(a: string, b: string, c: char)
    requires c !in a
    ensures After(a + [c] + b, c) == Some(b)
  {
    var s := a + [c] + b;
    if a == [] {
      assert s == [c] + b;
    } else {
      assert s[0] == a[0] && s[1..] == a[1..] + [c] + b;
      AfterPlain(a[1..], b, c);
    }
  }

  /** A string without `c` is all of `Before`. */
  lemma BeforeAbsent(s: string, c: char)
    requires c !in s
    ensures Before(s, c) == s
  {
  }

  /** `location.search` without its leading `?`; `None` when there is no query. */
  function Query(url: string): Option<string> {
    After(Before(url, '#'), '?')
  }

  /** The `application/x-www-form-urlencoded` reading of a name or value, with
      `+` as a space. */
  function FormDecode(s: string): (t: string)
    ensures |t| == |s|
    ensures forall i :: 0 <= i < |s| ==> t[i] == (if s[i] == '+' then ' ' else s[i])
  {
    seq(|s|, i requires 0 <= i < |s| => if s[i] == '+' then ' ' else s[i])
  }

  /** The name and value of one `name=value` pair. */
  function PairName(pair: string): string {
    FormDecode(Before(pair, '='))
  }

  function PairValue(pair: string): string {
    var v := After(pair, '=');
    FormDecode(if v.Some? then v.value else "")
  }

  /** The position of the first non-empty pair called `name` at or after
      `from`, or `|pairs|` when there is none. */
  function FirstNamed(pairs: seq<string>, name: string, from: nat): (i: nat)
    requires from <= |pairs|
    ensures from <= i <= |pairs|
    ensures i < |pairs| ==> pairs[i] != "" && PairName(pairs[i]) == name
    ensures forall j :: from <= j < i ==> pairs[j] == "" || PairName(pairs[j]) != name
    decreases |pairs| - from
  {
    if from == |pairs| || (pairs[from] != "" && PairName(pairs[from]) == name) then from
    else FirstNamed(pairs, name, from + 1)
  }

  /** The value of the first non-empty pair called `name`. */
  function Lookup(pairs: seq<string>, name: string): (r: Option<string>)
    ensures r.None? <==> forall i :: 0 <= i < |pairs| ==> pairs[i] == "" || PairName(pairs[i]) != name
    ensures r.Some? ==> exists i :: 0 <= i < |pairs| && pairs[i] != "" && PairName(pairs[i]) == name &&
                          r.value == PairValue(pairs[i]) &&
                          forall j :: 0 <= j < i ==> pairs[j] == "" || PairName(pairs[j]) != name
  {
    var i := FirstNamed(pairs, name, 0);
    if i < |pairs| then Some(PairValue(pairs[i])) else None
  }

  /** `new URLSearchParams(location.search).get(name)` for the page address `url`. */
  function SearchParam(url: string, name: string): Option<string> {
    var q := Query(url);
    if q.None? then None else Lookup(Split(q.value, '&'), name)
  }

  /** The query of `base?q` is `q` when neither holds a fragment mark. */
  lemma QueryAfterMark(base: string, q: string)
    requires '?' !in base && '#' !in base && '#' !in q
    ensures Query(base + "?" + q) == Some(q)
  {
    var url := base + "?" + q;
    assert url == base + ['?'] + q;
    assert '#' !in url by {
      forall i | 0 <= i < |url| ensures url[i] != '#' {
        if i < |base| { assert url[i] == base[i]; }
        else if i > |base| { assert url[i] == q[i - |base| - 1]; }
      }
    }
    BeforeAbsent(url, '#');
    AfterPlain(base, q, '?');
  }

  /** `name=value` reads back as that name and that value. */
  lemma PairParts(name: string, value: string)
    requires '=' !in name && '+' !in name && '+' !in value
    ensures PairName(name + "=" + value) == name && PairValue(name + "=" + value) == value
  {
    assert name + "=" + value == name + ['='] + value;
    BeforePlain(name, value, '=');
    AfterPlain(name, value, '=');
    assert FormDecode(name) == name;
    assert FormDecode(value) == value;
  }

  /** An address with one parameter gives that parameter back, provided
      neither the name nor the value holds a character that the query syntax
      reserves (`&`, `#`, `+`), a percent escape, which `get` would decode, or
      a tab or line break, which the URL parser removes; and provided the
      value does not end in a space or control character, which the parser
      trims from the end of the address. */
  lemma SingleParam(base: string, name: string, value: string)
    requires '?' !in base && '#' !in base
    requires name != "" && '=' !in name && '&' !in name && '#' !in name && '+' !in name
    requires '%' !in name && '\t' !in name && '\n' !in name && '\r' !in name
    requires '&' !in value && '#' !in value && '+' !in value
    requires '%' !in value && '\t' !in value && '\n' !in value && '\r' !in value
    requires value == "" || value[|value| - 1] > ' '
    ensures SearchParam(base + "?" + name + "=" + value, name) == Some(value)
  {
    var pair := name + "=" + value;
    var url := base + "?" + pair;
    assert base + "?" + name + "=" + value == url;
    PlainPair(name, value);
    OnePairQuery(base, pair);
    assert SearchParam(url, name) == Lookup([pair], name);
    PairParts(name, value);
    LookupOne(pair, name);
  }

  /** A single non-empty pair called `name` is the one `get` picks. */
  lemma LookupOne(pair: string, name: string)
    requires pair != "" && PairName(pair) == name
    ensures Lookup([pair], name) == Some(PairValue(pair))
  {
  }

  /** A pair built from parts without `#` or `&` has neither. */
  lemma PlainPair(name: string, value: string)
    requires '&' !in name && '#' !in name && '&' !in value && '#' !in value
    ensures '#' !in name + "=" + value && '&' !in name + "=" + value
  {
    var pair := name + "=" + value;
    forall i | 0 <= i < |pair| ensures pair[i] != '#' && pair[i] != '&' {
      if i < |name| { assert pair[i] == name[i]; }
      else if i > |name| { assert pair[i] == value[i - |name| - 1]; }
    }
  }

  /** The query of `base?pair` is the one pair itself. */
  lemma OnePairQuery(base: string, pair: string)
    requires '?' !in base && '#' !in base && '#' !in pair && '&' !in pair
    ensures Query(base + "?" + pair) == Some(pair) && Split(pair, '&') == [pair]
  {
    QueryAfterMark(base, pair);
    SplitPlainPrefix(pair, "", '&');
    assert pair + "" == pair;
  }
}
