/** `escapeXml`, identical in all three renderer files: four chained global replaces,
    ampersand first. The apostrophe is left as it is. */
module Xml {
  import opened Text

  /** The characters `escapeXml` rewrites. */
  predicate IsSpecial(c: char) {
    c == '&' || c == '<' || c == '>' || c == '"'
  }

  /** The entity that replaces one character. */
  function EscapeChar(c: char): (e: string)
    ensures |e| >= 1
    ensures '<' !in e && '>' !in e && '"' !in e
    ensures !IsSpecial(c) ==> e == [c]
  {
    if c == '&' then "&amp;"
    else if c == '<' then "&lt;"
    else if c == '>' then "&gt;"
    else if c == '"' then "&quot;"
    else [c]
  }

  /** Per-character substitution: what the chain of replaces amounts to. */
  function Escape(s: string): (r: string)
    ensures '<' !in r && '>' !in r && '"' !in r
    decreases |s|
  {
    if s == [] then []
    else
      var e, rest := EscapeChar(s[0]), Escape(s[1..]);
      e + rest
  }

  /** Text free of the four special characters is returned unchanged. */
  lemma {:induction false} EscapeIdentity(s: string)
    requires forall c <- s :: !IsSpecial(c)
    ensures Escape(s) == s
    decreases |s|
  {
    if s != [] {
      assert !IsSpecial(s[0]);
      assert forall c <- s[1..] :: c in s;
      EscapeIdentity(s[1..]);
      assert Escape(s) == [s[0]] + s[1..] == s;
    }
  }

  /** Each ampersand grows by four characters, each angle bracket by three and each double
      quote by five; every other character is kept. */
  lemma {:induction false} EscapeLength(s: string)
    ensures |Escape(s)| == |s| + 4 * Count(s, '&') + 3 * Count(s, '<') + 3 * Count(s, '>') + 5 * Count(s, '"')
    decreases |s|
  {
    if s != [] {
      EscapeLength(s[1..]);
      var e := EscapeChar(s[0]);
      assert |e| == 1 + (if s[0] == '&' then 4 else 0) + (if s[0] == '<' then 3 else 0)
                      + (if s[0] == '>' then 3 else 0) + (if s[0] == '"' then 5 else 0);
      assert Escape(s) == e + Escape(s[1..]);
    }
  }

  /** `s.replace(/c/g, rep)` for a single-character pattern and a replacement without `$`. */
  function ReplaceAll(s: string, c: char, rep: string): string
    decreases |s|
  {
    if s == [] then [] else (if s[0] == c then rep else [s[0]]) + ReplaceAll(s[1..], c, rep)
  }

  /** A global replace distributes over concatenation. */
  lemma {:induction false} ReplaceAllConcat(a: string, b: string, c: char, rep: string)
    ensures ReplaceAll(a + b, c, rep) == ReplaceAll(a, c, rep) + ReplaceAll(b, c, rep)
    decreases |a|
  {
    if a == [] {
      assert a + b == b;
    } else {
      ReplaceAllConcat(a[1..], b, c, rep);
      assert (a + b)[1..] == a[1..] + b;
    }
  }

  /** A global replace of an absent character changes nothing. */
  lemma {:induction false} ReplaceAllAbsent(s: string, c: char, rep: string)
    requires c !in s
    ensures ReplaceAll(s, c, rep) == s
    decreases |s|
  {
    if s != [] {
      ReplaceAllAbsent(s[1..], c, rep);
      assert [s[0]] + s[1..] == s;
    }
  }

  /** `escapeXml` exactly as written: `&`, then `<`, then `>`, then `"`. */
  function EscapeChained(s: string): string {
    ReplaceAll(ReplaceAll(ReplaceAll(ReplaceAll(s, '&', "&amp;"), '<', "&lt;"), '>', "&gt;"), '"', "&quot;")
  }

  lemma EscapeChainedConcat(a: string, b: string)
    ensures EscapeChained(a + b) == EscapeChained(a) + EscapeChained(b)
  {
    var a1, b1 := ReplaceAll(a, '&', "&amp;"), ReplaceAll(b, '&', "&amp;");
    ReplaceAllConcat(a, b, '&', "&amp;");
    var a2, b2 := ReplaceAll(a1, '<', "&lt;"), ReplaceAll(b1, '<', "&lt;");
    ReplaceAllConcat(a1, b1, '<', "&lt;");
    var a3, b3 := ReplaceAll(a2, '>', "&gt;"), ReplaceAll(b2, '>', "&gt;");
    ReplaceAllConcat(a2, b2, '>', "&gt;");
    ReplaceAllConcat(a3, b3, '"', "&quot;");
  }

  lemma EscapeChainedChar(c: char)
    ensures EscapeChained([c]) == EscapeChar(c)
  {
    var e := EscapeChar(c);
    assert ReplaceAll([c], '&', "&amp;") == (if c == '&' then "&amp;" else [c]);
    var s1 := ReplaceAll([c], '&', "&amp;");
    if c == '&' {
      ReplaceAllAbsent(s1, '<', "&lt;");
      ReplaceAllAbsent(s1, '>', "&gt;");
      ReplaceAllAbsent(s1, '"', "&quot;");
    } else if c == '<' {
      assert ReplaceAll(s1, '<', "&lt;") == "&lt;";
      ReplaceAllAbsent("&lt;", '>', "&gt;");
      ReplaceAllAbsent("&lt;", '"', "&quot;");
    } else if c == '>' {
      assert ReplaceAll(s1, '<', "&lt;") == [c];
      assert ReplaceAll([c], '>', "&gt;") == "&gt;";
      ReplaceAllAbsent("&gt;", '"', "&quot;");
    } else if c == '"' {
      assert ReplaceAll(s1, '<', "&lt;") == [c];
      assert ReplaceAll([c], '>', "&gt;") == [c];
      assert ReplaceAll([c], '"', "&quot;") == "&quot;";
    } else {
      ReplaceAllAbsent([c], '<', "&lt;");
      ReplaceAllAbsent([c], '>', "&gt;");
      ReplaceAllAbsent([c], '"', "&quot;");
    }
  }

  /** Because `&` is replaced first, no entity produced by a later step is escaped again:
      the chain equals the per-character substitution. */
  lemma {:induction false} EscapeChainedIsEscape(s: string)
    ensures EscapeChained(s) == Escape(s)
    decreases |s|
  {
    if s != [] {
      EscapeChainedIsEscape(s[1..]);
      assert s == [s[0]] + s[1..];
      EscapeChainedConcat([s[0]], s[1..]);
      EscapeChainedChar(s[0]);
    }
  }

  /** Decodes the four entities `escapeXml` produces; every other character is copied. */
  function Unescape(t: string): string
    decreases |t|
  {
    if t == [] then []
    else if StartsWith(t, "&amp;") then "&" + Unescape(t[5..])
    else if StartsWith(t, "&lt;") then "<" + Unescape(t[4..])
    else if StartsWith(t, "&gt;") then ">" + Unescape(t[4..])
    else if StartsWith(t, "&quot;") then "\"" + Unescape(t[6..])
    else [t[0]] + Unescape(t[1..])
  }

  /** Decoding one escaped character in front of any text. */
  lemma UnescapeEscapeChar(c: char, rest: string)
    ensures Unescape(EscapeChar(c) + rest) == [c] + Unescape(rest)
  {
    var t := EscapeChar(c) + rest;
    if c == '&' {
      assert t[..5] == "&amp;" && t[5..] == rest;
    } else if c == '<' {
      assert t[..4] == "&lt;" && t[4..] == rest;
      assert !StartsWith(t, "&amp;") by { assert t[1] == 'l'; }
    } else if c == '>' {
      assert t[..4] == "&gt;" && t[4..] == rest;
      assert !StartsWith(t, "&amp;") by { assert t[1] == 'g'; }
      assert !StartsWith(t, "&lt;") by { assert t[1] == 'g'; }
    } else if c == '"' {
      assert t[..6] == "&quot;" && t[6..] == rest;
      assert !StartsWith(t, "&amp;") by { assert t[1] == 'q'; }
      assert !StartsWith(t, "&lt;") by { assert t[1] == 'q'; }
      assert !StartsWith(t, "&gt;") by { assert t[1] == 'q'; }
    } else {
      assert t[0] == c && t[1..] == rest;
      assert !StartsWith(t, "&amp;") && !StartsWith(t, "&lt;") && !StartsWith(t, "&gt;") && !StartsWith(t, "&quot;")
        by { assert t[0] != '&'; }
    }
  }

  /** Decoding the escaped text restores the input. */
  lemma {:induction false} UnescapeEscape(s: string)
    ensures Unescape(Escape(s)) == s
    decreases |s|
  {
    if s != [] {
      UnescapeEscape(s[1..]);
      UnescapeEscapeChar(s[0], Escape(s[1..]));
      assert [s[0]] + s[1..] == s;
    }
  }

  /** Text in escaped form: a sequence of the four entities and of characters that need no escaping. */
  predicate WellEscaped(t: string)
    decreases |t|
  {
    if t == [] then true
    else if StartsWith(t, "&amp;") then WellEscaped(t[5..])
    else if StartsWith(t, "&lt;") then WellEscaped(t[4..])
    else if StartsWith(t, "&gt;") then WellEscaped(t[4..])
    else if StartsWith(t, "&quot;") then WellEscaped(t[6..])
    else !IsSpecial(t[0]) && WellEscaped(t[1..])
  }

  /** One escaped character in front of escaped-form text keeps the escaped form. */
  lemma EscapeCharWellEscaped(c: char, rest: string)
    requires WellEscaped(rest)
    ensures WellEscaped(EscapeChar(c) + rest)
  {
    var t := EscapeChar(c) + rest;
    if c == '&' {
      assert t[..5] == "&amp;" && t[5..] == rest;
    } else if c == '<' {
      assert t[..4] == "&lt;" && t[4..] == rest;
      assert !StartsWith(t, "&amp;") by { assert t[1] == 'l'; }
    } else if c == '>' {
      assert t[..4] == "&gt;" && t[4..] == rest;
      assert !StartsWith(t, "&amp;") by { assert t[1] == 'g'; }
      assert !StartsWith(t, "&lt;") by { assert t[1] == 'g'; }
    } else if c == '"' {
      assert t[..6] == "&quot;" && t[6..] == rest;
      assert !StartsWith(t, "&amp;") by { assert t[1] == 'q'; }
      assert !StartsWith(t, "&lt;") by { assert t[1] == 'q'; }
      assert !StartsWith(t, "&gt;") by { assert t[1] == 'q'; }
    } else {
      assert t[0] == c && t[1..] == rest;
      assert !StartsWith(t, "&amp;") && !StartsWith(t, "&lt;") && !StartsWith(t, "&gt;") && !StartsWith(t, "&quot;")
        by { assert t[0] != '&'; }
    }
  }

  /** Every output of `escapeXml` is in escaped form: each `&` starts an entity, and `<`, `>`, `"` never occur raw. */
  lemma {:induction false} EscapeIsWellEscaped(s: string)
    ensures WellEscaped(Escape(s))
    decreases |s|
  {
    if s != [] {
      EscapeIsWellEscaped(s[1..]);
      EscapeCharWellEscaped(s[0], Escape(s[1..]));
    }
  }

  /** Re-escaping one decoded head: a text that starts with the escape of `c` and whose tail
      re-escapes to itself is the escape of `c` followed by its decoded tail. */
  lemma EscapeDecodedHead(t: string, c: char, tail: string)
    requires StartsWith(t, EscapeChar(c))
    requires Escape(tail) == t[|EscapeChar(c)|..]
    ensures Escape([c] + tail) == t
  {
    var e := EscapeChar(c);
    assert ([c] + tail)[0] == c && ([c] + tail)[1..] == tail;
    assert Escape([c] + tail) == e + Escape(tail);
    assert t == t[..|e|] + t[|e|..];
  }

  /** The character the head of a non-empty escaped-form text decodes to. */
  function DecodedHead(t: string): char
    requires t != []
  {
    if StartsWith(t, "&amp;") then '&'
    else if StartsWith(t, "&lt;") then '<'
    else if StartsWith(t, "&gt;") then '>'
    else if StartsWith(t, "&quot;") then '"'
    else t[0]
  }

  /** The head of a non-empty escaped-form text is the escape of the character it decodes to, and
      the rest is again in escaped form. */
  lemma DecodedHeadFacts(t: string)
    requires t != [] && WellEscaped(t)
    ensures StartsWith(t, EscapeChar(DecodedHead(t)))
    ensures WellEscaped(t[|EscapeChar(DecodedHead(t))|..])
    ensures Unescape(t) == [DecodedHead(t)] + Unescape(t[|EscapeChar(DecodedHead(t))|..])
  {
    if !StartsWith(t, "&amp;") && !StartsWith(t, "&lt;") && !StartsWith(t, "&gt;") && !StartsWith(t, "&quot;") {
      assert EscapeChar(t[0]) == [t[0]];
    }
  }

  /** Conversely, every escaped-form text is the escape of its decoding: the range of `escapeXml`
      is exactly the escaped-form texts. */
  lemma {:induction false} EscapeUnescape(t: string)
    requires WellEscaped(t)
    ensures Escape(Unescape(t)) == t
    decreases |t|
  {
    if t != [] {
      var c := DecodedHead(t);
      var n := |EscapeChar(c)|;
      DecodedHeadFacts(t);
      EscapeUnescape(t[n..]);
      EscapeDecodedHead(t, c, Unescape(t[n..]));
    }
  }

  /** Escaping distributes over concatenation. */
  lemma EscapeConcat(a: string, b: string)
    ensures Escape(a + b) == Escape(a) + Escape(b)
  {
    EscapeChainedIsEscape(a);
    EscapeChainedIsEscape(b);
    EscapeChainedIsEscape(a + b);
    EscapeChainedConcat(a, b);
  }

  /** The ampersand is rewritten but the apostrophe passes through unchanged. */
  lemma EscapeSample()
    ensures Escape("&'") == "&amp;'"
  {
    EscapeConcat("&", "'");
    assert "&" + "'" == "&'";
  }
}
