/** Escaping a string so that a JavaScript regular expression built from it
    matches that string literally (texotip.js, escapeRegExp). */
module RegExp {
  import opened Strings

  /** The characters of the class [.*+?^${}()|[\]\\] that escapeRegExp prefixes
      with a backslash. */
  predicate IsSpecial(c: char) {
    c in ".*+?^${}()|[]\\"
  }

  /** escapeRegExp: a backslash before every special character, every other
      character unchanged. */
  function EscapeRegExp(s: string): (r: string)
    ensures |r| >= |s|
    ensures (forall i :: 0 <= i < |s| ==> !IsSpecial(s[i])) ==> r == s
  {
    if s == [] then []
    else (if IsSpecial(s[0]) then ['\\', s[0]] else [s[0]]) + EscapeRegExp(s[1..])
  }

  /** The string a regular-expression source matches when it consists only of
      literal characters and backslash-escaped special characters; None when
      it contains any other construct (an unescaped metacharacter, or a
      backslash not followed by a special character). Such a source is
      exactly the escape of the string it matches. */
  function RegExpLiteral(re: string): (r: Option<string>)
    ensures r.Some? ==> |r.value| <= |re| && EscapeRegExp(r.value) == re
    decreases |re|
  {
    if re == [] then Some([])
    else if re[0] == '\\' then
      if |re| >= 2 && IsSpecial(re[1]) then
        var t := RegExpLiteral(re[2..]);
        assert re == ['\\', re[1]] + re[2..];
        if t.Some? then EscapeCons(re[1], t.value); Prepend(re[1], t) else None
      else None
    else if IsSpecial(re[0]) then None
    else
      var t := RegExpLiteral(re[1..]);
      assert re == [re[0]] + re[1..];
      if t.Some? then EscapeCons(re[0], t.value); Prepend(re[0], t) else None
  }

  /** Escaping a string that starts with c escapes c first. */
  lemma EscapeCons(c: char, s: string)
    ensures EscapeRegExp([c] + s) == (if IsSpecial(c) then ['\\', c] else [c]) + EscapeRegExp(s)
  {
    assert ([c] + s)[1..] == s;
  }

  function Prepend(c: char, o: Option<string>): Option<string> {
    match o
    case None => None
    case Some(s) => Some([c] + s)
  }

  /** Removing the escapes gives back the input: the escaped pattern matches
      exactly the original string, whatever characters it holds. */
  lemma {:induction false} EscapeRoundTrip(s: string)
    ensures RegExpLiteral(EscapeRegExp(s)) == Some(s)
  {
    if s != [] {
      EscapeRoundTrip(s[1..]);
      var e := EscapeRegExp(s);
      if IsSpecial(s[0]) {
        assert e[0] == '\\' && e[1] == s[0] && e[2..] == EscapeRegExp(s[1..]);
      } else {
        assert e[0] == s[0] && e[1..] == EscapeRegExp(s[1..]);
      }
      assert s == [s[0]] + s[1..];
    }
  }

  /** A pattern without special characters matches itself literally; this is
      why the unescaped tokens of the resolve pass are safe patterns. */
  lemma {:induction false} PlainIsLiteral(s: string)
    requires forall i :: 0 <= i < |s| ==> !IsSpecial(s[i])
    ensures RegExpLiteral(s) == Some(s)
  {
    if s != [] {
      PlainIsLiteral(s[1..]);
      assert s == [s[0]] + s[1..];
    }
  }

  /** Escaping works character by character. */
  lemma {:induction false} EscapeConcat(a: string, b: string)
    ensures EscapeRegExp(a + b) == EscapeRegExp(a) + EscapeRegExp(b)
  {
    if a != [] {
      assert (a + b)[1..] == a[1..] + b;
      EscapeConcat(a[1..], b);
    } else {
      assert a + b == b;
    }
  }

  /** A term such as "C++" is not a literal pattern until it is escaped. */
  lemma CPlusPlus()
    ensures RegExpLiteral("C++") == None
    ensures EscapeRegExp("C++") == "C\\+\\+"
    ensures RegExpLiteral(EscapeRegExp("C++")) == Some("C++")
  {
    assert IsSpecial('+');
    assert "C++"[1..] == "++" && "++"[1..] == "+" && "+"[1..] == [];
    EscapeRoundTrip("C++");
  }
}
