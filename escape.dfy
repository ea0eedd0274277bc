/**
 The `safeContent` escaping of the HTML route: three global replacements,
 `&` first, then `<`, then `>`. `EscapeEach` is the same mapping stated one
 character at a time, and `Unescape` decodes the three entities.
 */
module HtmlEscape {

  /** `s.replace(/c/g, rep)` for a single-character pattern. */
  function ReplaceAll(s: string, c: char, rep: string): string
  {
    if s == [] then [] else (if s[0] == c then rep else [s[0]]) + ReplaceAll(s[1..], c, rep)
  }

  /** `content.replace(/&/g, "&amp;").replace(/</g, "&lt;").replace(/>/g, "&gt;")` */
  function SafeContent(s: string): string
  {
    ReplaceAll(ReplaceAll(ReplaceAll(s, '&', "&amp;"), '<', "&lt;"), '>', "&gt;")
  }

  function EscapeChar(c: char): string
  {
    if c == '&' then "&amp;" else if c == '<' then "&lt;" else if c == '>' then "&gt;" else [c]
  }

  /** The escaping as a per-character map. */
  function EscapeEach(s: string): string
  {
    if s == [] then [] else EscapeChar(s[0]) + EscapeEach(s[1..])
  }

  /** Decodes `&amp;`, `&lt;` and `&gt;`, scanning left to right. */
  function Unescape(s: string): string
    decreases |s|
  {
    if |s| >= 5 && s[..5] == "&amp;" then "&" + Unescape(s[5..])
    else if |s| >= 4 && s[..4] == "&lt;" then "<" + Unescape(s[4..])
    else if |s| >= 4 && s[..4] == "&gt;" then ">" + Unescape(s[4..])
    else if s == [] then []
    else [s[0]] + Unescape(s[1..])
  }

  predicate StartsWithEntity(s: string)
  {
    || (|s| >= 5 && s[..5] == "&amp;")
    || (|s| >= 4 && s[..4] == "&lt;")
    || (|s| >= 4 && s[..4] == "&gt;")
  }

  /** Every `&` of `r` opens one of the three entities. */
  predicate AmpersandsOpenEntities(r: string)
  {
    forall i :: 0 <= i < |r| && r[i] == '&' ==> StartsWithEntity(r[i..])
  }

  lemma {:induction false} ReplaceAllAppend(a: string, b: string, c: char, rep: string)
    ensures ReplaceAll(a + b, c, rep) == ReplaceAll(a, c, rep) + ReplaceAll(b, c, rep)
    decreases |a|
  {
    if a != [] {
      assert (a + b)[0] == a[0];
      assert (a + b)[1..] == a[1..] + b;
      ReplaceAllAppend(a[1..], b, c, rep);
    } else {
      assert a + b == b;
    }
  }

  /** Replacing a character that does not occur leaves the string as it is. */
  lemma {:induction false} ReplaceAllAbsent(s: string, c: char, rep: string)
    requires c !in s
    ensures ReplaceAll(s, c, rep) == s
    decreases |s|
  {
    if s != [] {
      assert s == [s[0]] + s[1..];
      ReplaceAllAbsent(s[1..], c, rep);
    }
  }

  /** The chained replacements escape each character independently, because `&` goes first. */
  lemma {:induction false} SafeContentIsCharwise(s: string)
    ensures SafeContent(s) == EscapeEach(s)
    decreases |s|
  {
    if s != [] {
      var c, t := s[0], s[1..];
      assert s == [c] + t;
      ReplaceAllAppend([c], t, '&', "&amp;");
      var a1, b1 := ReplaceAll([c], '&', "&amp;"), ReplaceAll(t, '&', "&amp;");
      ReplaceAllAppend(a1, b1, '<', "&lt;");
      var a2, b2 := ReplaceAll(a1, '<', "&lt;"), ReplaceAll(b1, '<', "&lt;");
      ReplaceAllAppend(a2, b2, '>', "&gt;");
      SafeContentIsCharwise(t);
      assert ReplaceAll([c], '&', "&amp;") == (if c == '&' then "&amp;" else [c]);
      if c == '&' {
        ReplaceAllAbsent("&amp;", '<', "&lt;");
        ReplaceAllAbsent("&amp;", '>', "&gt;");
      } else if c == '<' {
        assert a1 == "<";
        assert a2 == "&lt;";
        ReplaceAllAbsent("&lt;", '>', "&gt;");
      } else if c == '>' {
        assert a2 == ">";
      } else {
        assert a2 == [c];
      }
    }
  }

  lemma {:induction false} EscapeEachHasNoAngleBrackets(s: string)
    ensures '<' !in EscapeEach(s) && '>' !in EscapeEach(s)
    decreases |s|
  {
    if s != [] {
      EscapeEachHasNoAngleBrackets(s[1..]);
    }
  }

  /** The escaped content contains no `<` and no `>`, so it can open no tag. */
  lemma SafeContentHasNoAngleBrackets(s: string)
    ensures '<' !in SafeContent(s) && '>' !in SafeContent(s)
  {
    SafeContentIsCharwise(s);
    EscapeEachHasNoAngleBrackets(s);
  }

  lemma EntitiesConcat(a: string, b: string)
    requires AmpersandsOpenEntities(a) && AmpersandsOpenEntities(b)
    ensures AmpersandsOpenEntities(a + b)
  {
  }

  lemma {:induction false} EscapeEachOpensEntities(s: string)
    ensures AmpersandsOpenEntities(EscapeEach(s))
    decreases |s|
  {
    if s != [] {
      var e := EscapeChar(s[0]);
      assert AmpersandsOpenEntities(e) by {
        forall i | 0 <= i < |e| && e[i] == '&' ensures StartsWithEntity(e[i..]) {
          assert i == 0;
          assert e[0..] == e;
        }
      }
      EscapeEachOpensEntities(s[1..]);
      EntitiesConcat(e, EscapeEach(s[1..]));
    }
  }

  /** Every `&` in the escaped content begins `&amp;`, `&lt;` or `&gt;`. */
  lemma SafeContentOpensEntities(s: string)
    ensures AmpersandsOpenEntities(SafeContent(s))
  {
    SafeContentIsCharwise(s);
    EscapeEachOpensEntities(s);
  }

  lemma {:induction false} UnescapeEscapeEach(s: string)
    ensures Unescape(EscapeEach(s)) == s
    decreases |s|
  {
    if s != [] {
      var c, rest := s[0], EscapeEach(s[1..]);
      var e := EscapeChar(c) + rest;
      assert EscapeEach(s) == e;
      UnescapeEscapeEach(s[1..]);
      if c == '&' {
        assert e[..5] == "&amp;" && e[5..] == rest;
      } else if c == '<' {
        assert e[..4] == "&lt;" && e[4..] == rest;
        assert !(|e| >= 5 && e[..5] == "&amp;") by {
          assert e[1] == 'l';
        }
      } else if c == '>' {
        assert e[..4] == "&gt;" && e[4..] == rest;
        assert !(|e| >= 5 && e[..5] == "&amp;") by {
          assert e[1] == 'g';
        }
        assert !(|e| >= 4 && e[..4] == "&lt;") by {
          assert e[1] == 'g';
        }
      } else {
        assert e[0] == c;
        assert e[1..] == rest;
        assert !StartsWithEntity(e) by {
          assert |e| >= 4 ==> e[..4][0] == c;
          assert |e| >= 5 ==> e[..5][0] == c;
        }
      }
      assert Unescape(e) == [c] + Unescape(rest);
      assert s == [c] + s[1..];
    }
  }

  /** Decoding the three entities recovers the original content exactly. */
  lemma UnescapeSafeContent(s: string)
    ensures Unescape(SafeContent(s)) == s
  {
    SafeContentIsCharwise(s);
    UnescapeEscapeEach(s);
  }
}
