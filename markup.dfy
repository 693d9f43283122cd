/**
 * How a text reaches an entry row's input. The row template writes
 * `value="${text}"` into `innerHTML`, so the browser's HTML parser decides
 * what the input holds: the characters up to the first double quote, with
 * character references decoded.
 */
module Markup {
  import opened Seqs

  /**
   * The value an HTML parser gives a double-quoted attribute whose source
   * text, after the opening quote, is `t`: everything before the closing
   * `"`, with the references `&quot;` and `&amp;` decoded.
   */
  function AttributeValue(t: string): (r: string)
    ensures |r| <= |t|
    decreases |t|
  {
    if t == [] || t[0] == '"' then []
    else if t[0] == '&' && "&quot;" <= t then ['"'] + AttributeValue(t[6..])
    else if t[0] == '&' && "&amp;" <= t then ['&'] + AttributeValue(t[5..])
    else [t[0]] + AttributeValue(t[1..])
  }

  /** The attribute text for one character: `"` and `&` as references, others as themselves. */
  function EscapeChar(c: char): (r: string)
    ensures '"' !in r && r != []
  {
    if c == '"' then "&quot;" else if c == '&' then "&amp;" else [c]
  }

  /** The attribute text for `s` with `"` and `&` written as references. */
  function Escape(s: string): (r: string)
    ensures forall i :: 0 <= i < |r| ==> r[i] != '"'
    ensures |r| >= |s|
  {
    if s == [] then [] else EscapeChar(s[0]) + Escape(s[1..])
  }

  /** The parser reads an escaped character back as that character, then goes on. */
  lemma DecodeEscapeChar(c: char, tail: string)
    ensures AttributeValue(EscapeChar(c) + tail) == [c] + AttributeValue(tail)
  {
    if c == '"' {
      assert ("&quot;" + tail)[6..] == tail;
    } else if c == '&' {
      assert ("&amp;" + tail)[1] == 'a';
      assert ("&amp;" + tail)[5..] == tail;
    } else {
      assert ([c] + tail)[0] != '&';
      assert ([c] + tail)[1..] == tail;
    }
  }

  /**
   * The value the attribute of the row template as written gets for `s`:
   * `s` is spliced between the quotes unescaped, and the template's own
   * closing quote follows it. Only the attribute value is modelled; what
   * the parser makes of the markup after an early `"` is not.
   */
  function CellAsWritten(s: string): (r: string)
    ensures |r| <= |s|
  {
    QuotedValueShorter(s);
    AttributeValue(s + "\"")
  }

  /** The value read up to the closing quote is never longer than the text before it. */
  lemma {:induction false} QuotedValueShorter(t: string)
    ensures |AttributeValue(t + "\"")| <= |t|
    decreases |t|
  {
    var u := t + "\"";
    assert u[|t|] == '"';
    if t == [] || t[0] == '"' {
      assert u[0] == '"';
    } else if u[0] == '&' && "&quot;" <= u {
      assert |t| >= 6 by {
        assert forall i :: 0 <= i < 6 ==> "&quot;"[i] != '"';
      }
      assert u[6..] == t[6..] + "\"";
      QuotedValueShorter(t[6..]);
    } else if u[0] == '&' && "&amp;" <= u {
      assert |t| >= 5 by {
        assert forall i :: 0 <= i < 5 ==> "&amp;"[i] != '"';
      }
      assert u[5..] == t[5..] + "\"";
      QuotedValueShorter(t[5..]);
    } else {
      assert u[1..] == t[1..] + "\"";
      QuotedValueShorter(t[1..]);
    }
  }

  /** A character other than `"` and `&` passes through the parser as it is. */
  lemma PlainStep(c: char, t: string)
    requires c != '"' && c != '&'
    ensures AttributeValue([c] + t) == [c] + AttributeValue(t)
  {
    assert ([c] + t)[1..] == t;
  }

  /** Text without `"` or `&` passes through the parser as it is. */
  lemma {:induction false} PlainPrefix(p: string, t: string)
    requires forall i :: 0 <= i < |p| ==> p[i] != '"' && p[i] != '&'
    ensures AttributeValue(p + t) == p + AttributeValue(t)
  {
    if p != [] {
      PlainPrefix(p[1..], t);
      SplitFirst(p);
      AppendAssoc([p[0]], p[1..], t);
      PlainStep(p[0], p[1..] + t);
      AppendAssoc([p[0]], p[1..], AttributeValue(t));
    } else {
      assert p + t == t;
    }
  }

  /** A text with a double quote loses everything from that quote on. */
  lemma QuoteTruncatesCell()
    ensures CellAsWritten("Dinner \"Joe\"") == "Dinner "
  {
    var rest := "\"Joe\"" + "\"";
    assert "Dinner \"Joe\"" + "\"" == "Dinner " + rest;
    PlainPrefix("Dinner ", rest);
    assert rest[0] == '"';
  }

  /** For a text with no `"` and no `&` the unescaped template is harmless. */
  lemma CellAsWrittenPlain(s: string)
    requires forall i :: 0 <= i < |s| ==> s[i] != '"' && s[i] != '&'
    ensures CellAsWritten(s) == s
  {
    PlainPrefix(s, "\"");
    assert s + [] == s;
  }

  /** Escaping before splicing makes the parser give back exactly the text. */
  lemma {:induction false} EscapeRoundTrip(s: string, rest: string)
    ensures AttributeValue(Escape(s) + "\"" + rest) == s
  {
    if s == [] {
      assert Escape(s) + "\"" + rest == "\"" + rest;
    } else {
      var tail := Escape(s[1..]) + "\"" + rest;
      EscapeRoundTrip(s[1..], rest);
      assert Escape(s) + "\"" + rest == EscapeChar(s[0]) + tail;
      DecodeEscapeChar(s[0], tail);
      assert [s[0]] + s[1..] == s;
    }
  }

  /** What an input shows for `s` once the template escapes it: `s` itself. */
  function Cell(s: string): (r: string)
    ensures r == s
  {
    EscapeRoundTrip(s, "");
    assert Escape(s) + "\"" + "" == Escape(s) + "\"";
    AttributeValue(Escape(s) + "\"")
  }
}
