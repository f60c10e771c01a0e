/** The text-building part of the dashboard's CSV export (`exportToCSV` in
    src/data-utils.js): a header line of the first object's keys, then one
    line per object, fields joined by commas and lines by newlines. A text
    field holding a comma or a double quote is wrapped in quotes with its
    quotes doubled. A reader for that format is defined alongside, and the
    export is proved to read back as the values it wrote. */
module CsvExport {
  import opened Collections

  /** A property value of an exported object. A number is carried as the text
      that `String(n)` gives for it; `Missing` is an absent or `null`
      property, which `join` renders as nothing. */
  datatype Value = Text(s: string) | Number(rendered: string) | Missing

  /** A plain object: its properties in insertion order, keys distinct. */
  type Object = seq<(string, Value)>

  /** `Object.keys(obj)`. */
  function Keys(obj: Object): (keys: seq<string>)
    ensures |keys| == |obj| && forall i :: 0 <= i < |obj| ==> keys[i] == obj[i].0
  {
    seq(|obj|, i requires 0 <= i < |obj| => obj[i].0)
  }

  /** `obj[key]`: the value stored under `key`, `Missing` when there is none. */
  function Lookup(obj: Object, key: string): (v: Value)
    ensures v != Missing ==> exists i :: 0 <= i < |obj| && obj[i] == (key, v)
    ensures (forall i :: 0 <= i < |obj| ==> obj[i].0 != key) ==> v == Missing
    ensures (exists i :: 0 <= i < |obj| && obj[i].0 == key) ==>
              exists i :: 0 <= i < |obj| && obj[i].0 == key && v == obj[i].1 &&
                          forall k :: 0 <= k < i ==> obj[k].0 != key
    decreases |obj|
  {
    if obj == [] then Missing
    else if obj[0].0 == key then obj[0].1
    else
      var tail := obj[1..];
      var v := Lookup(tail, key);
      assert forall i :: 1 <= i < |obj| ==> obj[i] == tail[i - 1];
      assert v != Missing ==> exists i :: 0 <= i < |obj| && obj[i] == (key, v) by {
        if v != Missing {
          var i :| 0 <= i < |tail| && tail[i] == (key, v);
          assert obj[i + 1] == (key, v);
        }
      }
      assert (exists i :: 0 <= i < |obj| && obj[i].0 == key) ==>
               exists i :: 0 <= i < |obj| && obj[i].0 == key && v == obj[i].1 &&
                           forall k :: 0 <= k < i ==> obj[k].0 != key by {
        if exists i :: 0 <= i < |obj| && obj[i].0 == key {
          var i :| 0 <= i < |obj| && obj[i].0 == key;
          assert tail[i - 1].0 == key;
          var t :| 0 <= t < |tail| && tail[t].0 == key && v == tail[t].1 &&
                   forall k :: 0 <= k < t ==> tail[k].0 != key;
          assert obj[t + 1].0 == key && v == obj[t + 1].1;
        }
      }
      v
  }

  /** The text `Array.prototype.join` writes for a value. */
  function TextOf(v: Value): string
  {
    match v
    case Text(s) => s
    case Number(r) => r
    case Missing => ""
  }

  predicate NeedsQuotes(s: string)
  {
    ',' in s || '"' in s
  }

  /** `s.replace(/"/g, '""')`. */
  function Doubled(s: string): (d: string)
    ensures |d| >= |s|
    ensures forall c :: c != '"' ==> (c in d <==> c in s)
    decreases |s|
  {
    if s == [] then []
    else
      var rest := Doubled(s[1..]);
      assert s == [s[0]] + s[1..];
      (if s[0] == '"' then ['"', '"'] else [s[0]]) + rest
  }

  /** One field of a line: a text with a comma or a quote is quoted, anything
      else is written as its text. */
  function EncodeField(v: Value): (f: string)
    ensures v.Text? && NeedsQuotes(v.s) ==> f == ['"'] + Doubled(v.s) + ['"']
    ensures !(v.Text? && NeedsQuotes(v.s)) ==> f == TextOf(v)
  {
    if v.Text? && NeedsQuotes(v.s) then ['"'] + Doubled(v.s) + ['"'] else TextOf(v)
  }

  /** The values of `obj` under `headers`, in header order. */
  function Values(obj: Object, headers: seq<string>): (vs: seq<Value>)
    ensures |vs| == |headers| && forall k :: 0 <= k < |headers| ==> vs[k] == Lookup(obj, headers[k])
  {
    seq(|headers|, k requires 0 <= k < |headers| => Lookup(obj, headers[k]))
  }

  function EncodeAll(vs: seq<Value>): (fs: seq<string>)
    ensures |fs| == |vs| && forall k :: 0 <= k < |vs| ==> fs[k] == EncodeField(vs[k])
  {
    seq(|vs|, k requires 0 <= k < |vs| => EncodeField(vs[k]))
  }

  /** `values.join(',')` for one object. */
  function EncodeLine(obj: Object, headers: seq<string>): string
  {
    Join(EncodeAll(Values(obj, headers)), ',')
  }

  /** `csvRows`: the header line, written unescaped, then one line per object. */
  function CsvLines(data: seq<Object>, headers: seq<string>): (lines: seq<string>)
    ensures |lines| == |data| + 1 && lines[0] == Join(headers, ',')
    ensures forall i :: 1 <= i < |lines| ==> lines[i] == EncodeLine(data[i - 1], headers)
  {
    [Join(headers, ',')] + seq(|data|, i requires 0 <= i < |data| => EncodeLine(data[i], headers))
  }

  /** The text part of `exportToCSV`. An empty list has no first object to
      take the headers from, and the source fails (None). */
  method ExportToCsv(data: seq<Object>) returns (csv: Option<string>)
    ensures csv.None? <==> data == []
    ensures csv.Some? ==> csv.value == Join(CsvLines(data, Keys(data[0])), '\n')
  {
    if data == [] {
      return None;
    }
    var headers := Keys(data[0]);
    var csvRows := [Join(headers, ',')];
    for i := 0 to |data|
      invariant |csvRows| == i + 1 && csvRows[0] == Join(headers, ',')
      invariant forall j :: 0 <= j < i ==> csvRows[j + 1] == EncodeLine(data[j], headers)
    {
      var values := EncodeAll(Values(data[i], headers));
      csvRows := csvRows + [Join(values, ',')];
    }
    assert csvRows == CsvLines(data, headers);
    return Some(Join(csvRows, '\n'));
  }

  // ---------------------------------------------------------------------------
  // Reading the format back
  // ---------------------------------------------------------------------------

  /** An unquoted field runs to the next comma; the rest of the line after
      that comma is returned, None at the end of the line. */
  function ParseUnquoted(s: string): (r: (string, Option<string>))
    ensures r.1.Some? ==> |r.1.value| < |s|
  {
    match IndexOf(s, ',')
    case None => (s, None)
    case Some(i) => (s[..i], Some(s[i + 1..]))
  }

  /** The inside of a quoted field: `""` stands for one quote, and a lone
      quote closes the field. */
  function ParseQuoted(s: string): (r: (string, Option<string>))
    ensures r.1.Some? ==> |r.1.value| < |s|
    decreases |s|
  {
    if s == [] then ([], None)
    else if s[0] == '"' then
      if |s| >= 2 && s[1] == '"' then
        var r := ParseQuoted(s[2..]);
        (['"'] + r.0, r.1)
      else
        var r := ParseUnquoted(s[1..]);
        (r.0, r.1)
    else
      var r := ParseQuoted(s[1..]);
      ([s[0]] + r.0, r.1)
  }

  function ParseField(s: string): (r: (string, Option<string>))
    ensures r.1.Some? ==> |r.1.value| < |s|
  {
    if s != [] && s[0] == '"' then ParseQuoted(s[1..]) else ParseUnquoted(s)
  }

  /** The fields of one CSV line. */
  function ParseLine(s: string): (fields: seq<string>)
    ensures fields != []
    decreases |s|
  {
    var r := ParseField(s);
    match r.1
    case None => [r.0]
    case Some(rest) => [r.0] + ParseLine(rest)
  }

  /** What follows a field: the end of the line or a comma. */
  predicate FieldEnd(tail: string)
  {
    tail == [] || tail[0] == ','
  }

  function AfterComma(tail: string): Option<string>
    requires FieldEnd(tail)
  {
    if tail == [] then None else Some(tail[1..])
  }

  /** A number's text, as `String(n)` writes it, holds no comma, quote or
      line break. */
  predicate Writable(v: Value)
  {
    v.Number? ==> ',' !in v.rendered && '"' !in v.rendered && '\n' !in v.rendered
  }

  lemma UnquotedEnd(tail: string)
    requires FieldEnd(tail)
    ensures ParseUnquoted(tail) == ([], AfterComma(tail))
  {
  }

  lemma UnquotedText(t: string, tail: string)
    requires ',' !in t && FieldEnd(tail)
    ensures ParseUnquoted(t + tail) == (t, AfterComma(tail))
  {
    if tail == [] {
      assert t + tail == t;
    } else {
      assert t + tail == t + [','] + tail[1..];
      IndexOfJoined(t, ',', tail[1..]);
      assert (t + tail)[..|t|] == t && (t + tail)[|t| + 1..] == tail[1..];
    }
  }

  /** Reading a doubled text and its closing quote gives the text back. */
  lemma {:induction false} QuotedRoundTrip(x: string, tail: string)
    requires FieldEnd(tail)
    ensures ParseQuoted(Doubled(x) + ['"'] + tail) == (x, AfterComma(tail))
    decreases |x|
  {
    var s := Doubled(x) + ['"'] + tail;
    if x == [] {
      assert s == ['"'] + tail && s[1..] == tail;
      UnquotedEnd(tail);
    } else {
      QuotedRoundTrip(x[1..], tail);
      var inner := Doubled(x[1..]) + ['"'] + tail;
      if x[0] == '"' {
        assert s == ['"', '"'] + inner && s[2..] == inner;
      } else {
        assert s == [x[0]] + inner && s[1..] == inner;
      }
      assert x == [x[0]] + x[1..];
    }
  }

  /** Reading an encoded field gives the value's text and the rest of the
      line. */
  lemma FieldRoundTrip(v: Value, tail: string)
    requires Writable(v) && FieldEnd(tail)
    ensures ParseField(EncodeField(v) + tail) == (TextOf(v), AfterComma(tail))
  {
    var f := EncodeField(v);
    if v.Text? && NeedsQuotes(v.s) {
      assert (f + tail)[1..] == Doubled(v.s) + ['"'] + tail;
      QuotedRoundTrip(v.s, tail);
    } else {
      var t := TextOf(v);
      assert t != [] ==> t[0] in t;
      UnquotedText(t, tail);
    }
  }

  function Texts(vs: seq<Value>): (ts: seq<string>)
    ensures |ts| == |vs| && forall k :: 0 <= k < |vs| ==> ts[k] == TextOf(vs[k])
  {
    seq(|vs|, k requires 0 <= k < |vs| => TextOf(vs[k]))
  }

  /** Reading a line of encoded fields gives the values' texts. */
  lemma {:induction false} LineRoundTrip(vs: seq<Value>)
    requires vs != [] && forall k :: 0 <= k < |vs| ==> Writable(vs[k])
    ensures ParseLine(Join(EncodeAll(vs), ',')) == Texts(vs)
    decreases |vs|
  {
    if |vs| == 1 {
      LastField(vs);
    } else {
      LineRoundTrip(vs[1..]);
      NextField(vs);
    }
  }

  lemma LastField(vs: seq<Value>)
    requires |vs| == 1 && Writable(vs[0])
    ensures ParseLine(Join(EncodeAll(vs), ',')) == Texts(vs)
  {
    var fs := EncodeAll(vs);
    assert Join(fs, ',') == fs[0] + [];
    FieldRoundTrip(vs[0], []);
  }

  lemma NextField(vs: seq<Value>)
    requires |vs| > 1 && Writable(vs[0])
    requires ParseLine(Join(EncodeAll(vs[1..]), ',')) == Texts(vs[1..])
    ensures ParseLine(Join(EncodeAll(vs), ',')) == Texts(vs)
  {
    var fs := EncodeAll(vs);
    var rest := Join(fs[1..], ',');
    assert rest == Join(EncodeAll(vs[1..]), ',') by {
      assert fs[1..] == EncodeAll(vs[1..]);
    }
    FieldThenRest(vs[0], rest);
    JoinCons(fs, ',');
    assert Texts(vs) == [TextOf(vs[0])] + Texts(vs[1..]);
  }

  /** An encoded field, a comma and more text read as the field's text
      followed by the fields of that text. */
  lemma FieldThenRest(v: Value, rest: string)
    requires Writable(v)
    ensures ParseLine(EncodeField(v) + ([','] + rest)) == [TextOf(v)] + ParseLine(rest)
  {
    FieldRoundTrip(v, [','] + rest);
    assert ([','] + rest)[1..] == rest;
    ParseLineCons(EncodeField(v), rest, TextOf(v));
  }

  lemma ParseLineCons(f: string, rest: string, t: string)
    requires ParseField(f + ([','] + rest)) == (t, Some(rest))
    ensures ParseLine(f + ([','] + rest)) == [t] + ParseLine(rest)
  {
  }

  /** An exported object's line reads back as its values under the headers. */
  lemma EncodeLineRoundTrip(obj: Object, headers: seq<string>)
    requires headers != []
    requires forall i :: 0 <= i < |obj| ==> Writable(obj[i].1)
    ensures ParseLine(EncodeLine(obj, headers)) == Texts(Values(obj, headers))
  {
    var vs := Values(obj, headers);
    forall k | 0 <= k < |vs| ensures Writable(vs[k]) {
      if vs[k] != Missing {
        var i :| 0 <= i < |obj| && obj[i] == (headers[k], vs[k]);
      }
    }
    LineRoundTrip(vs);
  }

  /** A value whose text has no line break encodes to a field without one. */
  lemma EncodeFieldNoBreak(v: Value)
    requires '\n' !in TextOf(v)
    ensures '\n' !in EncodeField(v)
  {
  }

  /** When no header and no value holds a line break, splitting the export at
      its line breaks gives back the header line and the object lines. */
  lemma CsvSplitsIntoLines(data: seq<Object>, headers: seq<string>)
    requires forall k :: 0 <= k < |headers| ==> '\n' !in headers[k]
    requires forall i, j :: 0 <= i < |data| && 0 <= j < |data[i]| ==> '\n' !in TextOf(data[i][j].1)
    ensures Split(Join(CsvLines(data, headers), '\n'), '\n') == CsvLines(data, headers)
  {
    var lines := CsvLines(data, headers);
    forall m | 0 <= m < |lines| ensures '\n' !in lines[m] {
      if m == 0 {
        JoinNoSep(headers, ',', '\n');
      } else {
        LineNoBreak(data[m - 1], headers);
      }
    }
    SplitJoin(lines, '\n');
  }

  lemma LineNoBreak(obj: Object, headers: seq<string>)
    requires forall j :: 0 <= j < |obj| ==> '\n' !in TextOf(obj[j].1)
    ensures '\n' !in EncodeLine(obj, headers)
  {
    var fs := EncodeAll(Values(obj, headers));
    forall k | 0 <= k < |fs| ensures '\n' !in fs[k] {
      var v := Lookup(obj, headers[k]);
      if v != Missing {
        var j :| 0 <= j < |obj| && obj[j] == (headers[k], v);
        assert '\n' !in TextOf(obj[j].1);
      }
      EncodeFieldNoBreak(v);
    }
    JoinNoSep(fs, ',', '\n');
  }
}
