/**
 * HTML escaping of rendered values and the value cell of the report (`pretty`).
 */
module HtmlEscape {
  import opened JsValue

  /** `s.replace(/c/g, rep)` for a one-character pattern and a replacement without `$`. */
  function ReplaceAll(s: string, c: char, rep: string): string {
    if s == [] then []
    else (if s[0] == c then rep else [s[0]]) + ReplaceAll(s[1..], c, rep)
  }

  /** The entity a markup character becomes; every other character stays. */
  function EscapeChar(ch: char): string {
    if ch == '&' then "&amp;"
    else if ch == '<' then "&lt;"
    else if ch == '>' then "&gt;"
    else [ch]
  }

  /** Escaping character by character, in one pass. */
  function EscapeEach(s: string): (r: string)
    ensures '<' !in r && '>' !in r
  {
    if s == [] then [] else EscapeChar(s[0]) + EscapeEach(s[1..])
  }

  /** Decodes `&amp;`, `&lt;` and `&gt;`, scanning left to right. */
  function Unescape(s: string): string {
    if s == [] then []
    else if "&amp;" <= s then "&" + Unescape(s[5..])
    else if "&lt;" <= s then "<" + Unescape(s[4..])
    else if "&gt;" <= s then ">" + Unescape(s[4..])
    else [s[0]] + Unescape(s[1..])
  }

  /** `t` starts with one of the three entities. */
  predicate StartsWithEntity(t: string) {
    "&amp;" <= t || "&lt;" <= t || "&gt;" <= t
  }

  /** Every `&` of `r` starts an entity. */
  predicate AmpersandsAreEntities(r: string) {
    forall i :: 0 <= i < |r| && r[i] == '&' ==> StartsWithEntity(r[i..])
  }

  lemma {:induction false} ReplaceAllAppend(a: string, b: string, c: char, rep: string)
    ensures ReplaceAll(a + b, c, rep) == ReplaceAll(a, c, rep) + ReplaceAll(b, c, rep)
  {
    if a != [] {
      var head := if a[0] == c then rep else [a[0]];
      assert (a + b)[0] == a[0] && (a + b)[1..] == a[1..] + b;
      ReplaceAllAppend(a[1..], b, c, rep);
      calc {
        ReplaceAll(a + b, c, rep);
        head + ReplaceAll(a[1..] + b, c, rep);
        head + (ReplaceAll(a[1..], c, rep) + ReplaceAll(b, c, rep));
        (head + ReplaceAll(a[1..], c, rep)) + ReplaceAll(b, c, rep);
      }
    } else {
      assert a + b == b;
    }
  }

  lemma {:induction false} ReplaceAllAbsent(s: string, c: char, rep: string)
    requires c !in s
    ensures ReplaceAll(s, c, rep) == s
  {
    if s != [] {
      ReplaceAllAbsent(s[1..], c, rep);
    }
  }

  /** `str.replace(/&/g, …).replace(/</g, …).replace(/>/g, …)`, the three passes in order. */
  function ThreePasses(s: string): string {
    ReplaceAll(ReplaceAll(ReplaceAll(s, '&', "&amp;"), '<', "&lt;"), '>', "&gt;")
  }

  /** One pass over a single character. */
  lemma ReplaceAllSingle(ch: char, c: char, rep: string)
    ensures ReplaceAll([ch], c, rep) == if ch == c then rep else [ch]
  {
    assert [ch][1..] == [];
  }

  /** The three passes escape a single character as `EscapeChar` does. */
  lemma ThreePassesOnChar(ch: char)
    ensures ThreePasses([ch]) == EscapeChar(ch)
  {
    ReplaceAllSingle(ch, '&', "&amp;");
    if ch == '&' {
      ReplaceAllAbsent("&amp;", '<', "&lt;");
      ReplaceAllAbsent("&amp;", '>', "&gt;");
    } else {
      ReplaceAllSingle(ch, '<', "&lt;");
      if ch == '<' {
        ReplaceAllAbsent("&lt;", '>', "&gt;");
      } else {
        ReplaceAllSingle(ch, '>', "&gt;");
      }
    }
  }

  /**
   * The three global replacements, `&` first, escape every character exactly once:
   * the entities the first pass writes contain no `<` or `>` for the later passes to
   * touch, and the later passes write no `&`.
   */
  lemma {:induction false} ThreePassesAreOnePass(s: string)
    ensures ThreePasses(s) == EscapeEach(s)
  {
    if s != [] {
      var head, rest := [s[0]], s[1..];
      assert s == head + rest;
      ReplaceAllAppend(head, rest, '&', "&amp;");
      var head1, rest1 := ReplaceAll(head, '&', "&amp;"), ReplaceAll(rest, '&', "&amp;");
      ReplaceAllAppend(head1, rest1, '<', "&lt;");
      var head2, rest2 := ReplaceAll(head1, '<', "&lt;"), ReplaceAll(rest1, '<', "&lt;");
      ReplaceAllAppend(head2, rest2, '>', "&gt;");
      ThreePassesOnChar(s[0]);
      ThreePassesAreOnePass(rest);
    }
  }

  /** Decoding the one-pass escape gives the original back. */
  lemma {:induction false} UnescapeEscapeEach(s: string)
    ensures Unescape(EscapeEach(s)) == s
  {
    if s != [] {
      var e := EscapeChar(s[0]);
      var rest := EscapeEach(s[1..]);
      var r := e + rest;
      UnescapeEscapeEach(s[1..]);
      if s[0] == '&' {
        assert "&amp;" <= r && r[5..] == rest;
      } else if s[0] == '<' {
        assert !("&amp;" <= r) by { assert r[1] == 'l'; }
        assert "&lt;" <= r && r[4..] == rest;
      } else if s[0] == '>' {
        assert !("&amp;" <= r) by { assert r[1] == 'g'; }
        assert !("&lt;" <= r) by { assert r[1] == 'g'; }
        assert "&gt;" <= r && r[4..] == rest;
      } else {
        assert r[0] == s[0] && r[1..] == rest;
      }
      assert s == [s[0]] + s[1..];
    }
  }

  /** Every `&` of the one-pass escape starts an entity. */
  lemma {:induction false} AmpersandsStartEntities(s: string)
    ensures AmpersandsAreEntities(EscapeEach(s))
  {
    if s != [] {
      var e := EscapeChar(s[0]);
      var rest := EscapeEach(s[1..]);
      var r := e + rest;
      AmpersandsStartEntities(s[1..]);
      forall i | 0 <= i < |r| && r[i] == '&' ensures StartsWithEntity(r[i..]) {
        if i < |e| {
          assert i == 0 && r[i..] == r;
          if s[0] == '&' {
            assert r[..5] == "&amp;";
            assert "&amp;" <= r[i..];
          } else if s[0] == '<' {
            assert r[..4] == "&lt;";
            assert "&lt;" <= r[i..];
          } else {
            assert s[0] == '>';
            assert r[..4] == "&gt;";
            assert "&gt;" <= r[i..];
          }
        } else {
          assert rest[i - |e|] == '&';
          assert r[i..] == rest[i - |e|..];
        }
      }
    }
  }

  /**
   * `escapeHtml(str)`: the result holds no `<` and no `>`, every `&` in it starts one of
   * the three entities, and decoding those entities gives `str` back.
   */
  function EscapeHtml(str: string): (r: string)
    ensures '<' !in r && '>' !in r
    ensures AmpersandsAreEntities(r)
    ensures Unescape(r) == str
  {
    ThreePassesAreOnePass(str);
    AmpersandsStartEntities(str);
    UnescapeEscapeEach(str);
    ThreePasses(str)
  }

  lemma {:induction false} EscapeEachAppend(a: string, b: string)
    ensures EscapeEach(a + b) == EscapeEach(a) + EscapeEach(b)
  {
    if a != [] {
      assert (a + b)[0] == a[0] && (a + b)[1..] == a[1..] + b;
      EscapeEachAppend(a[1..], b);
      var e := EscapeChar(a[0]);
      assert e + (EscapeEach(a[1..]) + EscapeEach(b)) == (e + EscapeEach(a[1..])) + EscapeEach(b);
    } else {
      assert a + b == b;
    }
  }

  /** Text without markup characters is left as it is. */
  lemma {:induction false} EscapeEachPlain(s: string)
    requires '&' !in s && '<' !in s && '>' !in s
    ensures EscapeEach(s) == s
  {
    if s != [] {
      EscapeEachPlain(s[1..]);
      assert s == [s[0]] + s[1..];
    }
  }

  /** Escaping distributes over concatenation. */
  lemma EscapeHtmlAppend(a: string, b: string)
    ensures EscapeHtml(a + b) == EscapeHtml(a) + EscapeHtml(b)
  {
    ThreePassesAreOnePass(a + b);
    ThreePassesAreOnePass(a);
    ThreePassesAreOnePass(b);
    EscapeEachAppend(a, b);
  }

  /**
   * A tag inside a value is shown as text: `<name>` becomes `&lt;name&gt;` (so
   * `<script>alert(1)</script>` becomes `&lt;script&gt;alert(1)&lt;/script&gt;`).
   */
  lemma EscapeTag(name: string)
    requires '&' !in name && '<' !in name && '>' !in name
    ensures EscapeHtml("<" + name + ">") == "&lt;" + name + "&gt;"
  {
    EscapeHtmlAppend("<" + name, ">");
    EscapeHtmlAppend("<", name);
    ThreePassesAreOnePass("<");
    ThreePassesAreOnePass(">");
    ThreePassesAreOnePass(name);
    EscapeEachPlain(name);
    assert EscapeEach("<") == "&lt;" by { assert "<"[1..] == []; }
    assert EscapeEach(">") == "&gt;" by { assert ">"[1..] == []; }
  }

  /** The cell shown for a layer that has no value. */
  const UndefinedCell := "<div style=\"color:#888;font-style:italic;\">undefined</div>"

  /** The opening markup of a value block (a dark, scrollable, monospace box). */
  const ValueBlockOpen :=
    "<div style=\"\n"
    + "            background: #1e1e1e;\n"
    + "            color: #d4d4d4;\n"
    + "            border: 1px solid #3c3c3c;\n"
    + "            padding: 12px;\n"
    + "            font-family: monospace;\n"
    + "            font-size: 13px;\n"
    + "            white-space: pre;\n"
    + "            overflow-x: auto;\n"
    + "            overflow-y: auto;\n"
    + "            max-height: 400px;\n"
    + "            border-radius: 4px;\n"
    + "        \">"

  const ValueBlockClose := "</div>"

  /**
   * `cell` is a value block: the fixed opening and closing markup around a text that holds
   * no `<` or `>`, whose every `&` starts an entity, and that decodes to `serialized`.
   */
  predicate ShowsValue(cell: string, serialized: string) {
    && |cell| >= |ValueBlockOpen| + |ValueBlockClose|
    && cell[..|ValueBlockOpen|] == ValueBlockOpen
    && cell[|cell| - |ValueBlockClose|..] == ValueBlockClose
    && var text := cell[|ValueBlockOpen|..|cell| - |ValueBlockClose|];
       '<' !in text && '>' !in text && AmpersandsAreEntities(text) && Unescape(text) == serialized
  }

  /** Dropping a prefix keeps every remaining `&` at the head of an entity. */
  lemma AmpersandsAreEntitiesSuffix(t: string, n: nat)
    requires AmpersandsAreEntities(t) && n <= |t|
    ensures AmpersandsAreEntities(t[n..])
  {
    forall i | 0 <= i < |t[n..]| && t[n..][i] == '&' ensures StartsWithEntity(t[n..][i..]) {
      assert t[n + i] == '&' && t[n..][i..] == t[n + i..];
    }
  }

  /** Re-escaping a decoded head `ch`, written as `t[..n]`, gives the text back. */
  lemma EscapedHead(t: string, n: nat, ch: char)
    requires 1 <= n <= |t| && t[..n] == EscapeChar(ch)
    requires Unescape(t) == [ch] + Unescape(t[n..])
    requires EscapeEach(Unescape(t[n..])) == t[n..]
    ensures EscapeEach(Unescape(t)) == t
  {
    var x := Unescape(t);
    assert x[0] == ch && x[1..] == Unescape(t[n..]);
    assert t == t[..n] + t[n..];
  }

  /** An escaped text starts with the escape of its first decoded character. */
  lemma DecodedHead(t: string) returns (n: nat, ch: char)
    requires t != [] && '<' !in t && '>' !in t && AmpersandsAreEntities(t)
    ensures 1 <= n <= |t| && t[..n] == EscapeChar(ch)
    ensures Unescape(t) == [ch] + Unescape(t[n..])
  {
    if "&amp;" <= t {
      n, ch := 5, '&';
      assert t[..5] == "&amp;";
    } else if "&lt;" <= t {
      n, ch := 4, '<';
      assert t[..4] == "&lt;";
    } else if "&gt;" <= t {
      n, ch := 4, '>';
      assert t[..4] == "&gt;";
    } else {
      n, ch := 1, t[0];
      assert t[0..] == t;
      assert t[0] == '&' ==> StartsWithEntity(t[0..]);
      assert t[..1] == [t[0]];
    }
  }

  /**
   * Escaped text is the only text of its kind with its decoding: a text without `<` or
   * `>` whose every `&` starts an entity is the one-pass escape of what it decodes to.
   */
  lemma {:induction false} EscapedTextIsUnique(t: string)
    requires '<' !in t && '>' !in t && AmpersandsAreEntities(t)
    ensures EscapeEach(Unescape(t)) == t
  {
    if t != [] {
      var n, ch := DecodedHead(t);
      AmpersandsAreEntitiesSuffix(t, n);
      assert forall c :: c in t[n..] ==> c in t;
      EscapedTextIsUnique(t[n..]);
      EscapedHead(t, n, ch);
    }
  }

  /** A value block is exactly the opening markup, the escaped serialisation and `</div>`. */
  lemma ShowsValueExactly(cell: string, serialized: string)
    requires ShowsValue(cell, serialized)
    ensures cell == ValueBlockOpen + EscapeHtml(serialized) + ValueBlockClose
  {
    var text := cell[|ValueBlockOpen|..|cell| - |ValueBlockClose|];
    assert cell == cell[..|ValueBlockOpen|] + text + cell[|cell| - |ValueBlockClose|..];
    EscapedTextIsUnique(text);
    ThreePassesAreOnePass(serialized);
  }

  /**
   * `pretty(value)`, with `JSON.stringify(value, null, 4)` given as `stringify`:
   * `undefined` shows the placeholder; any other value shows a block whose text holds no
   * `<` or `>`, whose every `&` starts an entity, and which decodes to the serialised value
   * (by `ShowsValueExactly`, the escaped serialisation itself).
   */
  function Pretty(value: Value, stringify: Value -> string): (html: string)
    ensures value.Undefined? ==> html == UndefinedCell
    ensures !value.Undefined? ==> ShowsValue(html, stringify(value))
  {
    if value.Undefined? then UndefinedCell
    else
      var text := EscapeHtml(stringify(value));
      var html := ValueBlockOpen + text + ValueBlockClose;
      assert html[|ValueBlockOpen|..|html| - |ValueBlockClose|] == text;
      html
  }
}
