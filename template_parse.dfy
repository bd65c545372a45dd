/**
 * A reference reader for the scalar fragment of the template text: split the
 * text at newlines, split each line at its first `=`, and strip the quotes
 * around the value. Proved to invert template_to_str on attribute hashes
 * whose values are all scalars (or blank), which pins down the line format,
 * the quoting, the upper-casing of keys and the dropping of blank values.
 */
module TemplateParse {
  import opened Options
  import opened Template

  /** The first position of c in s, if any. */
  function IndexOf(s: string, c: char): (r: Option<nat>)
    ensures r.Some? ==> r.value < |s| && s[r.value] == c && c !in s[..r.value]
    ensures r.None? <==> c !in s
  {
    if s == [] then None
    else if s[0] == c then Some(0)
    else
      match IndexOf(s[1..], c)
      case None => None
      case Some(i) =>
        assert s[..i + 1] == [s[0]] + s[1..][..i];
        Some(i + 1)
  }

  /** The text cut at every newline; the empty text has no lines. */
  function SplitLines(s: string): seq<string>
    decreases |s|
  {
    if s == [] then []
    else
      match IndexOf(s, '\n')
      case None => [s]
      case Some(i) => [s[..i]] + SplitLines(s[i + 1..])
  }

  /** One `KEY="value"` line as a key and a value; None when it has no `=` or the value is not quoted. */
  function ParseLine(line: string): (r: Option<(string, string)>)
    ensures r.Some? ==> line == r.value.0 + "=" + Quoted(r.value.1) && '=' !in r.value.0
  {
    match IndexOf(line, '=')
    case None => None
    case Some(i) =>
      var rest := line[i + 1..];
      if |rest| >= 2 && rest[0] == '"' && rest[|rest| - 1] == '"' then
        var v := rest[1..|rest| - 1];
        assert rest == "\"" + v + "\"";
        assert line == line[..i] + "=" + rest;
        Some((line[..i], v))
      else None
  }

  function ParseLines(lines: seq<string>): Option<seq<(string, string)>>
    decreases |lines|
  {
    if lines == [] then Some([])
    else
      match (ParseLine(lines[0]), ParseLines(lines[1..]))
      case (Some(p), Some(ps)) => Some([p] + ps)
      case _ => None
  }

  /** The key/value pairs of a template made of scalar lines. */
  function ParseTemplate(text: string): Option<seq<(string, string)>>
  {
    ParseLines(SplitLines(text))
  }

  /** The pairs template_to_str writes for scalar attributes: blank ones dropped, keys upper-cased. */
  function Pairs(attrs: Attributes): seq<(string, string)>
    decreases |attrs|
  {
    if attrs == [] then []
    else if !IsBlank(attrs[0].1) && attrs[0].1.Str? then [(Upcase(attrs[0].0), attrs[0].1.s)] + Pairs(attrs[1..])
    else Pairs(attrs[1..])
  }

  function Render(pairs: seq<(string, string)>): (r: seq<string>)
    ensures |r| == |pairs|
    decreases |pairs|
  {
    if pairs == [] then [] else [pairs[0].0 + "=" + Quoted(pairs[0].1)] + Render(pairs[1..])
  }

  /** Scalar values only, and no key with `=` or a newline, no value with a newline. */
  predicate Readable(attrs: Attributes)
  {
    ScalarsOnly(attrs) &&
    forall i :: 0 <= i < |attrs| ==>
      '=' !in attrs[i].0 && '\n' !in attrs[i].0 && (attrs[i].1.Str? ==> '\n' !in attrs[i].1.s)
  }

  predicate ReadablePairs(pairs: seq<(string, string)>)
  {
    forall i :: 0 <= i < |pairs| ==> '=' !in pairs[i].0 && '\n' !in pairs[i].0 && '\n' !in pairs[i].1
  }

  // ---------------------------------------------------------------------------
  // Lemmas
  // ---------------------------------------------------------------------------

  lemma {:induction false} IndexOfAfter(a: string, b: string, c: char)
    requires c !in a
    ensures IndexOf(a + [c] + b, c) == Some(|a|)
    decreases |a|
  {
    if a != [] {
      assert (a + [c] + b)[1..] == a[1..] + [c] + b;
      IndexOfAfter(a[1..], b, c);
    }
  }

  /** Splitting a join of non-empty, newline-free lines gives the lines back. */
  lemma {:induction false} SplitJoin(lines: seq<string>)
    requires forall i :: 0 <= i < |lines| ==> lines[i] != [] && '\n' !in lines[i]
    ensures SplitLines(Join(lines, "\n")) == lines
    decreases |lines|
  {
    if |lines| == 1 {
      assert IndexOf(lines[0], '\n').None?;
    } else if |lines| > 1 {
      var rest := Join(lines[1..], "\n");
      IndexOfAfter(lines[0], rest, '\n');
      var s := lines[0] + "\n" + rest;
      assert s == lines[0] + ['\n'] + rest;
      assert s[..|lines[0]|] == lines[0];
      assert s[|lines[0]| + 1..] == rest;
      SplitJoin(lines[1..]);
    }
  }

  lemma ParseLineRendered(k: string, v: string)
    requires '=' !in k
    ensures ParseLine(k + "=" + Quoted(v)) == Some((k, v))
  {
    var line := k + "=" + Quoted(v);
    assert line == k + ['='] + Quoted(v);
    IndexOfAfter(k, Quoted(v), '=');
    assert line[..|k|] == k;
    assert line[|k| + 1..] == Quoted(v);
  }

  lemma {:induction false} ParseRender(pairs: seq<(string, string)>)
    requires ReadablePairs(pairs)
    ensures ParseLines(Render(pairs)) == Some(pairs)
    decreases |pairs|
  {
    if pairs != [] {
      var lines := Render(pairs);
      ParseLineRendered(pairs[0].0, pairs[0].1);
      assert lines[0] == pairs[0].0 + "=" + Quoted(pairs[0].1);
      assert lines[1..] == Render(pairs[1..]);
      assert ReadablePairs(pairs[1..]) by {
        forall i | 0 <= i < |pairs[1..]|
          ensures '=' !in pairs[1..][i].0 && '\n' !in pairs[1..][i].0 && '\n' !in pairs[1..][i].1
        {
          assert pairs[1..][i] == pairs[i + 1];
        }
      }
      ParseRender(pairs[1..]);
      assert ParseLines(lines) == Some([pairs[0]] + pairs[1..]);
      assert [pairs[0]] + pairs[1..] == pairs;
    }
  }

  lemma UpcaseKeeps(s: string, c: char)
    requires c == '\n' || c == '='
    ensures c in Upcase(s) <==> c in s
  {
    UpcaseProperties(s);
    if c in Upcase(s) {
      var i :| 0 <= i < |s| && Upcase(s)[i] == c;
      UpcaseAt(s, i);
    }
    if c in s {
      var i :| 0 <= i < |s| && s[i] == c;
    }
  }

  /** For scalar attributes the lines are those of the pairs; the pairs are readable back. */
  lemma {:induction false} ScalarLinesRender(attrs: Attributes, layout: Layout)
    requires Readable(attrs)
    ensures Lines(attrs, layout) == Render(Pairs(attrs))
    ensures ReadablePairs(Pairs(attrs))
    decreases |attrs|
  {
    if attrs != [] {
      var (k, v) := attrs[0];
      assert Readable(attrs[1..]) by {
        forall i | 0 <= i < |attrs[1..]|
          ensures attrs[1..][i].1.Nil? || attrs[1..][i].1.Str?
          ensures '=' !in attrs[1..][i].0 && '\n' !in attrs[1..][i].0
          ensures attrs[1..][i].1.Str? ==> '\n' !in attrs[1..][i].1.s
        {
          assert attrs[1..][i] == attrs[i + 1];
        }
      }
      ScalarLinesRender(attrs[1..], layout);
      assert v.Nil? || v.Str?;
      if !IsBlank(v) && v.Str? {
        UpcaseKeeps(k, '=');
        UpcaseKeeps(k, '\n');
        assert Pairs(attrs) == [(Upcase(k), v.s)] + Pairs(attrs[1..]);
        assert Pairs(attrs)[1..] == Pairs(attrs[1..]);
      }
    }
  }

  lemma RenderedLinesSplittable(pairs: seq<(string, string)>)
    requires ReadablePairs(pairs)
    ensures forall i :: 0 <= i < |Render(pairs)| ==> Render(pairs)[i] != [] && '\n' !in Render(pairs)[i]
  {
    forall i | 0 <= i < |pairs|
      ensures Render(pairs)[i] == pairs[i].0 + "=" + Quoted(pairs[i].1)
    {
      RenderAt(pairs, i);
    }
  }

  lemma {:induction false} RenderAt(pairs: seq<(string, string)>, i: nat)
    requires i < |pairs|
    ensures Render(pairs)[i] == pairs[i].0 + "=" + Quoted(pairs[i].1)
    decreases i
  {
    if i > 0 {
      RenderAt(pairs[1..], i - 1);
    }
  }

  /**
   * Reading back the text template_to_str writes for scalar attributes gives
   * their upper-cased keys and values, blank ones dropped, in attribute
   * order, with or without indentation.
   */
  lemma RoundTrip(attrs: Attributes, indent: bool)
    requires Readable(attrs)
    ensures ParseTemplate(TemplateToStr(attrs, indent)) == Some(Pairs(attrs))
  {
    var pairs := Pairs(attrs);
    ScalarLinesRender(attrs, LayoutOf(indent));
    RenderedLinesSplittable(pairs);
    SplitJoin(Render(pairs));
    ParseRender(pairs);
  }
}
