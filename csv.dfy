/**
 * A model of PHP's `str_getcsv($line, $delimiter, $enclosure)` as an explicit,
 * simplified, quote-aware splitter in the spirit of rules 5 to 7 of section 2 of RFC 4180:
 *
 *  - outside an enclosed span, the delimiter ends the current field;
 *  - an enclosure character at the very start of a field opens an enclosed span
 *    (an enclosure character anywhere else outside a span is an ordinary character);
 *  - inside an enclosed span the delimiter is an ordinary character, two enclosure
 *    characters in a row stand for one literal enclosure character, and a single
 *    enclosure character closes the span;
 *  - after a span closes, the characters up to the next delimiter join the field as they are;
 *  - the end of the line ends the last field (also when a span was never closed).
 *
 * The enclosing characters themselves do not appear in the fields.
 */
module Csv {

  /** Where the scanner stands: at the start of a field, inside a bare field, or inside an enclosed span. */
  datatype Mode = FieldStart | Bare | Enclosed

  /**
   * The fields of the rest `s` of a line, when the scanner is in `mode` and has
   * collected `field` so far for the current field. There is always at least one field.
   */
  function Fields(s: string, delim: char, enc: char, mode: Mode, field: string): (fs: seq<string>)
    ensures |fs| >= 1
    decreases |s|
  {
    if s == [] then [field]
    else if mode == Enclosed then
      if s[0] != enc then Fields(s[1..], delim, enc, Enclosed, field + [s[0]])
      else if |s| > 1 && s[1] == enc then Fields(s[2..], delim, enc, Enclosed, field + [enc])
      else Fields(s[1..], delim, enc, Bare, field)
    else if s[0] == delim then [field] + Fields(s[1..], delim, enc, FieldStart, [])
    else if s[0] == enc && mode == FieldStart then Fields(s[1..], delim, enc, Enclosed, field)
    else Fields(s[1..], delim, enc, Bare, field + [s[0]])
  }

  /** `str_getcsv($line, $delim, $enc)` in this model. */
  function StrGetCsv(line: string, delim: char, enc: char): (fs: seq<string>)
    ensures |fs| >= 1
  {
    Fields(line, delim, enc, FieldStart, [])
  }

  /** `implode($delim, $fs)`. */
  function Join(fs: seq<string>, delim: char): string
  {
    if fs == [] then [] else if |fs| == 1 then fs[0] else fs[0] + [delim] + Join(fs[1..], delim)
  }

  /** `t` with every enclosure character doubled, as a field is written inside an enclosed span. */
  function Escape(t: string, enc: char): string
  {
    if t == [] then [] else (if t[0] == enc then [enc, enc] else [t[0]]) + Escape(t[1..], enc)
  }

  /** A field written as an enclosed span. */
  function Quote(t: string, enc: char): string
  {
    [enc] + Escape(t, enc) + [enc]
  }

  /** A line that writes every field of `fs` as an enclosed span, separated by the delimiter. */
  function Encode(fs: seq<string>, delim: char, enc: char): string
  {
    if fs == [] then [] else if |fs| == 1 then Quote(fs[0], enc)
    else Quote(fs[0], enc) + [delim] + Encode(fs[1..], delim, enc)
  }

  /**
   * Without enclosure characters the line is cut at every delimiter: no field holds
   * a delimiter, and joining the fields with the delimiter gives back the line.
   */
  lemma {:induction false} FieldsBare(s: string, delim: char, enc: char, mode: Mode, field: string)
    requires enc !in s && delim !in field && enc !in field && mode != Enclosed
    ensures Join(Fields(s, delim, enc, mode, field), delim) == field + s
    ensures forall f :: f in Fields(s, delim, enc, mode, field) ==> delim !in f && enc !in f
    decreases |s|
  {
    if s == [] {
    } else if s[0] == delim {
      FieldsBare(s[1..], delim, enc, FieldStart, []);
      var rest := Fields(s[1..], delim, enc, FieldStart, []);
      assert Fields(s, delim, enc, mode, field) == [field] + rest;
      assert ([field] + rest)[1..] == rest;
      assert field + s == field + [delim] + s[1..];
    } else {
      FieldsBare(s[1..], delim, enc, Bare, field + [s[0]]);
      assert field + s == field + [s[0]] + s[1..];
    }
  }

  /** The no-enclosure case of `str_getcsv`: the line cut at every delimiter occurrence (the TSV case). */
  lemma SplitWithoutEnclosure(line: string, delim: char, enc: char)
    requires enc !in line
    ensures Join(StrGetCsv(line, delim, enc), delim) == line
    ensures forall f :: f in StrGetCsv(line, delim, enc) ==> delim !in f && enc !in f
  {
    FieldsBare(line, delim, enc, FieldStart, []);
  }

  /** The text of `s` before its first delimiter. */
  function Head(s: string, delim: char): (h: string)
    ensures |h| <= |s| && h == s[..|h|] && delim !in h
  {
    if s == [] || s[0] == delim then [] else [s[0]] + Head(s[1..], delim)
  }

  /** A delimiter-free field followed by a delimiter (or nothing) is the head of the text. */
  lemma {:induction false} HeadOfField(f: string, rest: string, delim: char)
    requires delim !in f && (rest == [] || rest[0] == delim)
    ensures Head(f + rest, delim) == f
    decreases |f|
  {
    if f != [] {
      assert (f + rest)[1..] == f[1..] + rest;
      HeadOfField(f[1..], rest, delim);
      assert f == [f[0]] + f[1..];
    } else {
      assert f + rest == rest;
    }
  }

  /** Two delimiter-free field lists that join to the same line are equal: the cut is unique. */
  lemma {:induction false} JoinInjective(a: seq<string>, b: seq<string>, delim: char)
    requires |a| >= 1 && |b| >= 1
    requires forall f :: f in a ==> delim !in f
    requires forall f :: f in b ==> delim !in f
    requires Join(a, delim) == Join(b, delim)
    ensures a == b
    decreases |a|
  {
    var j := Join(a, delim);
    assert a[0] in a && b[0] in b;
    var ra: string := if |a| == 1 then [] else [delim] + Join(a[1..], delim);
    var rb: string := if |b| == 1 then [] else [delim] + Join(b[1..], delim);
    assert j == a[0] + ra && j == b[0] + rb;
    HeadOfField(a[0], ra, delim);
    HeadOfField(b[0], rb, delim);
    assert ra == rb;
    if |a| > 1 && |b| > 1 {
      assert ra[1..] == Join(a[1..], delim) && rb[1..] == Join(b[1..], delim);
      forall f | f in a[1..] ensures delim !in f { assert f in a; }
      forall f | f in b[1..] ensures delim !in f { assert f in b; }
      JoinInjective(a[1..], b[1..], delim);
      assert a == [a[0]] + a[1..];
      assert b == [b[0]] + b[1..];
    }
  }

  /**
   * An enclosed span is taken literally up to its closing enclosure character: delimiters
   * inside it do not split, and each doubled enclosure character yields one.
   */
  lemma {:induction false} EnclosedSpan(t: string, rest: string, delim: char, enc: char, field: string)
    requires rest == [] || rest[0] != enc
    ensures Fields(Escape(t, enc) + [enc] + rest, delim, enc, Enclosed, field)
         == Fields(rest, delim, enc, Bare, field + t)
    decreases |t|
  {
    var s := Escape(t, enc) + [enc] + rest;
    if t == [] {
      assert s == [enc] + rest;
      assert s[1..] == rest;
      assert field + t == field;
    } else if t[0] == enc {
      assert s == [enc, enc] + (Escape(t[1..], enc) + [enc] + rest);
      EnclosedSpan(t[1..], rest, delim, enc, field + [enc]);
      assert field + [enc] + t[1..] == field + t;
    } else {
      assert s == [t[0]] + (Escape(t[1..], enc) + [enc] + rest);
      EnclosedSpan(t[1..], rest, delim, enc, field + [t[0]]);
      assert field + [t[0]] + t[1..] == field + t;
    }
  }

  /** Round trip: a line of enclosed fields parses back into exactly those fields. */
  lemma {:induction false} ParseEncoded(fs: seq<string>, delim: char, enc: char)
    requires |fs| >= 1 && delim != enc
    ensures StrGetCsv(Encode(fs, delim, enc), delim, enc) == fs
    decreases |fs|
  {
    var rest: string := if |fs| == 1 then [] else [delim] + Encode(fs[1..], delim, enc);
    assert Encode(fs, delim, enc) == [enc] + (Escape(fs[0], enc) + [enc] + rest);
    EnclosedSpan(fs[0], rest, delim, enc, []);
    assert [] + fs[0] == fs[0];
    if |fs| > 1 {
      assert rest[1..] == Encode(fs[1..], delim, enc);
      ParseEncoded(fs[1..], delim, enc);
      assert fs == [fs[0]] + fs[1..];
    }
  }

  /** A bare field runs up to the next delimiter, which starts the next field. */
  lemma {:induction false} BareField(u: string, v: string, delim: char, enc: char, mode: Mode, field: string)
    requires delim !in u && enc !in u && mode != Enclosed
    ensures Fields(u + [delim] + v, delim, enc, mode, field) == [field + u] + Fields(v, delim, enc, FieldStart, [])
    decreases |u|
  {
    if u == [] {
      assert (u + [delim] + v)[1..] == v;
      assert field + u == field;
    } else {
      assert (u + [delim] + v)[1..] == u[1..] + [delim] + v;
      BareField(u[1..], v, delim, enc, Bare, field + [u[0]]);
      assert field + [u[0]] + u[1..] == field + u;
    }
  }

  /** A character that is neither the delimiter, the enclosure nor in any field does not occur in the encoded line. */
  lemma {:induction false} AbsentFromEncode(fs: seq<string>, delim: char, enc: char, x: char)
    requires x != delim && x != enc
    requires forall f :: f in fs ==> x !in f
    ensures x !in Encode(fs, delim, enc)
    decreases |fs|
  {
    if fs != [] {
      assert fs[0] in fs;
      AbsentFromEscape(fs[0], enc, x);
      if |fs| > 1 {
        forall f | f in fs[1..] ensures x !in f { assert f in fs; }
        AbsentFromEncode(fs[1..], delim, enc, x);
      }
    }
  }

  /** Escaping adds only enclosure characters. */
  lemma {:induction false} AbsentFromEscape(t: string, enc: char, x: char)
    requires x != enc && x !in t
    ensures x !in Escape(t, enc)
    decreases |t|
  {
    if t != [] {
      AbsentFromEscape(t[1..], enc, x);
    }
  }

  /** An encoded line of at least one field begins and ends with the enclosure character. */
  lemma EncodeEnclosed(fs: seq<string>, delim: char, enc: char)
    requires |fs| >= 1
    ensures |Encode(fs, delim, enc)| >= 2
    ensures Encode(fs, delim, enc)[0] == enc && Encode(fs, delim, enc)[|Encode(fs, delim, enc)| - 1] == enc
    decreases |fs|
  {
    if |fs| > 1 {
      EncodeEnclosed(fs[1..], delim, enc);
    }
  }

  /**
   * Two bare fields and an enclosed last field: the delimiters inside the enclosed
   * span stay in the third field.
   */
  lemma BareBareEnclosed(u: string, v: string, t: string, delim: char, enc: char)
    requires delim != enc && delim !in u && enc !in u && delim !in v && enc !in v && enc !in t
    ensures StrGetCsv(u + [delim] + v + [delim] + [enc] + t + [enc], delim, enc) == [u, v, t]
  {
    var last := [enc] + t + [enc];
    assert Fields(last, delim, enc, FieldStart, []) == [t] by {
      EscapePlain(t, enc);
      EnclosedSpan(t, [], delim, enc, []);
      assert last[1..] == Escape(t, enc) + [enc] + [];
      assert [] + t == t;
    }
    BareField(v, last, delim, enc, FieldStart, []);
    BareField(u, v + [delim] + last, delim, enc, FieldStart, []);
    assert [] + u == u && [] + v == v;
    assert u + [delim] + v + [delim] + [enc] + t + [enc] == u + [delim] + (v + [delim] + last);
  }

  /** A bare last field runs to the end of the line. */
  lemma {:induction false} LastBareField(w: string, delim: char, enc: char, mode: Mode, field: string)
    requires delim !in w && enc !in w && mode != Enclosed
    ensures Fields(w, delim, enc, mode, field) == [field + w]
    decreases |w|
  {
    if w == [] {
      assert field + w == field;
    } else {
      LastBareField(w[1..], delim, enc, Bare, field + [w[0]]);
      assert field + [w[0]] + w[1..] == field + w;
    }
  }

  /** Three bare fields: the line is cut at its two delimiters. */
  lemma BareBareBare(u: string, v: string, w: string, delim: char, enc: char)
    requires delim !in u && enc !in u && delim !in v && enc !in v && delim !in w && enc !in w
    ensures StrGetCsv(u + [delim] + v + [delim] + w, delim, enc) == [u, v, w]
  {
    LastBareField(w, delim, enc, FieldStart, []);
    BareField(v, w, delim, enc, FieldStart, []);
    BareField(u, v + [delim] + w, delim, enc, FieldStart, []);
    assert [] + u == u && [] + v == v && [] + w == w;
    assert u + [delim] + v + [delim] + w == u + [delim] + (v + [delim] + w);
  }

  /** `a,b,"c,d"` splits into `a`, `b` and `c,d` with the default delimiter and enclosure. */
  lemma EnclosedDelimiterExample(line: string)
    requires line == "a,b,\"c,d\""
    ensures StrGetCsv(line, ',', '"') == ["a", "b", "c,d"]
  {
    BareBareEnclosed("a", "b", "c,d", ',', '"');
    assert line == "a" + [','] + "b" + [','] + ['"'] + "c,d" + ['"'];
  }

  /** Without enclosure characters, escaping changes nothing. */
  lemma {:induction false} EscapePlain(t: string, enc: char)
    requires enc !in t
    ensures Escape(t, enc) == t
  {
    if t != [] {
      EscapePlain(t[1..], enc);
      assert t == [t[0]] + t[1..];
    }
  }

  /** A doubled enclosure character inside a span stands for one literal enclosure character. */
  lemma DoubledEnclosureExample(line: string)
    requires line == "\"x\"\"y\",z"
    ensures StrGetCsv(line, ',', '"') == ["x\"y", "z"]
  {
    var span: string := ['x', '"', 'y'];
    assert Escape(span, '"') == ['x', '"', '"', 'y'] by {
      assert Escape(span[2..], '"') == span[2..];
      assert Escape(span[1..], '"') == ['"', '"', 'y'];
    }
    var rest: string := [',', 'z'];
    EnclosedSpan(span, rest, ',', '"', []);
    assert line == ['"'] + (Escape(span, '"') + ['"'] + rest);
    assert line[1..] == Escape(span, '"') + ['"'] + rest;
    assert [] + span == span;
    assert rest[1..] == ['z'];
    assert Fields(rest, ',', '"', Bare, span) == [span] + Fields(['z'], ',', '"', FieldStart, []);
    assert ['z'][1..] == [] && [] + ['z'] == ['z'];
    assert Fields(['z'], ',', '"', FieldStart, []) == Fields([], ',', '"', Bare, ['z']);
  }
}
