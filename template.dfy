/**
 * JSONUtils#template_to_str: renders an attribute hash as OpenNebula template
 * text, one `KEY="value"` or `KEY=[ ... ]` line per attribute.
 *
 * The per-attribute mapping, the nested hash rendering and the final join are
 * functions; the buffer that each attribute's line is appended to element by
 * element is the method StrLine, proved equal to the function Line.
 * Upper-casing is ASCII only.
 */
module Template {
  import opened Options

  /** The entries of a hash, in order; None stands for a falsy value (nil or false), Some(s) for a truthy value whose to_s is s. */
  type Entries = seq<(string, Option<string>)>

  /** An element of an array value: nil, a scalar (its to_s) or a hash. */
  datatype Elem = ENil | EStr(s: string) | EHash(entries: Entries)

  /** The value of a top-level attribute. */
  datatype Value = Nil | Str(s: string) | Arr(elems: seq<Elem>) | Hash(entries: Entries)

  /** The attribute hash, in its iteration order. */
  type Attributes = seq<(string, Value)>

  /** What the indent flag selects: the break after `KEY=[` and the prefix of each nested entry. */
  datatype Layout = Layout(enter: string, tab: string)

  function LayoutOf(indent: bool): Layout
  {
    if indent then Layout("\n", "  ") else Layout("", " ")
  }

  function UpcaseChar(c: char): char
  {
    if 'a' <= c <= 'z' then (c as int - 32) as char else c
  }

  /** String#upcase on ASCII letters; every other character is kept. */
  function Upcase(s: string): (r: string)
    ensures |r| == |s|
  {
    if s == [] then [] else [UpcaseChar(s[0])] + Upcase(s[1..])
  }

  lemma {:induction false} UpcaseAt(s: string, i: nat)
    requires i < |s|
    ensures Upcase(s)[i] == UpcaseChar(s[i])
  {
    if i > 0 {
      UpcaseAt(s[1..], i - 1);
    }
  }

  /** Upper-casing leaves no lower-case ASCII letter, keeps every other character, and is idempotent. */
  lemma {:induction false} UpcaseProperties(s: string)
    ensures forall i :: 0 <= i < |s| ==> !('a' <= Upcase(s)[i] <= 'z')
    ensures forall i :: 0 <= i < |s| && !('a' <= s[i] <= 'z') ==> Upcase(s)[i] == s[i]
    ensures Upcase(Upcase(s)) == Upcase(s)
  {
    forall i | 0 <= i < |s|
      ensures !('a' <= Upcase(s)[i] <= 'z')
      ensures !('a' <= s[i] <= 'z') ==> Upcase(s)[i] == s[i]
    {
      UpcaseAt(s, i);
    }
    if s != [] {
      UpcaseProperties(s[1..]);
    }
  }

  function Quoted(s: string): string
  {
    "\"" + s + "\""
  }

  /** Array#join: the parts with sep between consecutive ones. */
  function Join(parts: seq<string>, sep: string): string
    decreases |parts|
  {
    if |parts| == 0 then ""
    else if |parts| == 1 then parts[0]
    else parts[0] + sep + Join(parts[1..], sep)
  }

  /** One nested entry: the tab, the upper-cased key and `=`, then the quoted value only when it is truthy. */
  function EntryLine(k: string, v: Option<string>, tab: string): string
  {
    tab + Upcase(k) + "=" + (if v.Some? then Quoted(v.value) else "")
  }

  function EntryLines(es: Entries, tab: string): (r: seq<string>)
    ensures |r| == |es|
  {
    if es == [] then [] else [EntryLine(es[0].0, es[0].1, tab)] + EntryLines(es[1..], tab)
  }

  /** A hash rendered under key: `KEY=[`, the layout's break, the entries joined by `,\n`, then `\n]\n`. */
  function HashBlock(key: string, es: Entries, layout: Layout): string
  {
    Upcase(key) + "=[" + layout.enter + Join(EntryLines(es, layout.tab), ",\n") + "\n]\n"
  }

  predicate IsBlankElem(e: Elem)
  {
    e.ENil? || (e.EStr? && e.s == "") || (e.EHash? && e.entries == [])
  }

  /** What one array element adds to its attribute's line. */
  function ElemOut(key: string, e: Elem, layout: Layout): string
  {
    if IsBlankElem(e) then ""
    else
      match e
      case EHash(es) => HashBlock(key, es, layout)
      case EStr(s) => Upcase(key) + "=" + Quoted(s) + "\n"
      case ENil => ""
  }

  /** The outputs of the array's elements, concatenated in array order. */
  function ArrayOut(key: string, es: seq<Elem>, layout: Layout): string
    decreases |es|
  {
    if es == [] then "" else ArrayOut(key, es[..|es| - 1], layout) + ElemOut(key, es[|es| - 1], layout)
  }

  /** nil or empty? */
  predicate IsBlank(v: Value)
  {
    v.Nil? || (v.Str? && v.s == "") || (v.Arr? && v.elems == []) || (v.Hash? && v.entries == [])
  }

  /** The collect block: no line for a nil or empty value, otherwise the attribute's line. */
  function Line(key: string, v: Value, layout: Layout): Option<string>
  {
    if IsBlank(v) then None
    else
      match v
      case Arr(es) => Some(ArrayOut(key, es, layout))
      case Hash(es) => Some(HashBlock(key, es, layout))
      case Str(s) => Some(Upcase(key) + "=" + Quoted(s))
      case Nil => None
  }

  /** collect followed by compact: the lines of the attributes that produce one, in attribute order. */
  function Lines(attrs: Attributes, layout: Layout): seq<string>
    decreases |attrs|
  {
    if attrs == [] then []
    else
      var rest := Lines(attrs[1..], layout);
      match Line(attrs[0].0, attrs[0].1, layout)
      case None => rest
      case Some(l) => [l] + rest
  }

  /** template_to_str: the lines joined by newlines. */
  function TemplateToStr(attrs: Attributes, indent: bool): string
  {
    Join(Lines(attrs, LayoutOf(indent)), "\n")
  }

  /** Appends the block of a hash under key to buf: `KEY=[`, the break, the entries, the closing bracket. */
  method AppendHash(buf: string, key: string, entries: Entries, layout: Layout) returns (out: string)
    ensures out == buf + HashBlock(key, entries, layout)
  {
    out := buf + Upcase(key) + "=[" + layout.enter;
    out := out + Join(EntryLines(entries, layout.tab), ",\n");
    out := out + "\n]\n";
  }

  /** Appends what one array element contributes to buf. */
  method AppendElem(buf: string, key: string, e: Elem, layout: Layout) returns (out: string)
    ensures out == buf + ElemOut(key, e, layout)
  {
    out := buf;
    if !IsBlankElem(e) {
      match e {
        case EHash(entries) =>
          out := AppendHash(out, key, entries, layout);
        case EStr(s) =>
          out := out + Upcase(key) + "=" + Quoted(s) + "\n";
        case ENil =>
      }
    }
  }

  /** The line of one attribute, built by appending to a buffer as each array element is visited. */
  method StrLine(key: string, value: Value, layout: Layout) returns (line: Option<string>)
    ensures line == Line(key, value, layout)
  {
    if IsBlank(value) {
      return None;
    }
    var buf := "";
    match value {
      case Arr(es) =>
        var i := 0;
        while i < |es|
          invariant 0 <= i <= |es|
          invariant buf == ArrayOut(key, es[..i], layout)
        {
          buf := AppendElem(buf, key, es[i], layout);
          assert es[..i + 1] == es[..i] + [es[i]];
          ArrayOutSnoc(key, es[..i], es[i], layout);
          i := i + 1;
        }
        assert es[..|es|] == es;
      case Hash(entries) =>
        buf := AppendHash(buf, key, entries, layout);
        assert buf == HashBlock(key, entries, layout);
      case Str(s) =>
        buf := buf + Upcase(key) + "=" + Quoted(s);
        assert buf == Upcase(key) + "=" + Quoted(s);
      case Nil =>
    }
    line := Some(buf);
  }

  // ---------------------------------------------------------------------------
  // Properties
  // ---------------------------------------------------------------------------

  /** The lines of two attribute lists in sequence are the lines of the first followed by those of the second. */
  lemma {:induction false} LinesAppend(a: Attributes, b: Attributes, layout: Layout)
    ensures Lines(a + b, layout) == Lines(a, layout) + Lines(b, layout)
    decreases |a|
  {
    if a == [] {
      assert a + b == b;
    } else {
      assert (a + b)[1..] == a[1..] + b;
      assert (a + b)[0] == a[0];
      LinesAppend(a[1..], b, layout);
    }
  }

  /** An attribute whose value is nil or empty contributes nothing, wherever it stands. */
  lemma BlankAttributeDropped(a: Attributes, b: Attributes, key: string, v: Value, indent: bool)
    requires IsBlank(v)
    ensures TemplateToStr(a + [(key, v)] + b, indent) == TemplateToStr(a + b, indent)
  {
    var layout := LayoutOf(indent);
    LinesAppend(a + [(key, v)], b, layout);
    LinesAppend(a, [(key, v)], layout);
    LinesAppend(a, b, layout);
    assert [(key, v)][1..] == [];
    assert Lines([(key, v)], layout) == [];
    assert Lines(a, layout) + [] == Lines(a, layout);
  }

  lemma ArrayOutSnoc(key: string, xs: seq<Elem>, e: Elem, layout: Layout)
    ensures ArrayOut(key, xs + [e], layout) == ArrayOut(key, xs, layout) + ElemOut(key, e, layout)
  {
    assert (xs + [e])[..|xs|] == xs;
  }

  /** The outputs of two runs of elements in sequence are concatenated in that order. */
  lemma {:induction false} ArrayOutAppend(key: string, xs: seq<Elem>, ys: seq<Elem>, layout: Layout)
    ensures ArrayOut(key, xs + ys, layout) == ArrayOut(key, xs, layout) + ArrayOut(key, ys, layout)
    decreases |ys|
  {
    if ys == [] {
      assert xs + ys == xs;
    } else {
      var init, last := ys[..|ys| - 1], ys[|ys| - 1];
      assert xs + ys == (xs + init) + [last];
      ArrayOutAppend(key, xs, init, layout);
      ArrayOutSnoc(key, xs + init, last, layout);
      ConcatAssoc(ArrayOut(key, xs, layout), ArrayOut(key, init, layout), ElemOut(key, last, layout));
    }
  }

  lemma ConcatAssoc(a: string, b: string, c: string)
    ensures (a + b) + c == a + (b + c)
  {
  }

  /** Elements that are all nil or empty add nothing to the line. */
  lemma {:induction false} ArrayOutOfBlanks(key: string, es: seq<Elem>, layout: Layout)
    requires forall i :: 0 <= i < |es| ==> IsBlankElem(es[i])
    ensures ArrayOut(key, es, layout) == ""
    decreases |es|
  {
    if es != [] {
      ArrayOutOfBlanks(key, es[..|es| - 1], layout);
    }
  }

  /**
   * An array whose elements are all nil or empty still yields a line, the
   * empty one, because only nil lines are compacted away.
   */
  lemma BlankArrayKeepsEmptyLine(a: Attributes, b: Attributes, key: string, es: seq<Elem>, indent: bool)
    requires es != [] && forall i :: 0 <= i < |es| ==> IsBlankElem(es[i])
    ensures Lines(a + [(key, Arr(es))] + b, LayoutOf(indent)) == Lines(a, LayoutOf(indent)) + [""] + Lines(b, LayoutOf(indent))
  {
    var layout := LayoutOf(indent);
    ArrayOutOfBlanks(key, es, layout);
    LinesAppend(a + [(key, Arr(es))], b, layout);
    LinesAppend(a, [(key, Arr(es))], layout);
    assert [(key, Arr(es))][1..] == [];
    assert Lines([(key, Arr(es))], layout) == [""];
  }

  // ---------------------------------------------------------------------------
  // Worked examples. Each is proved in two steps: the functions are unfolded
  // into a concatenation of literals, and a separate lemma, free of the
  // functions, flattens that concatenation into one literal.
  // ---------------------------------------------------------------------------

  /** A template of one attribute is that attribute's line, when it has one. */
  lemma TemplateOfOne(key: string, v: Value, indent: bool)
    requires Line(key, v, LayoutOf(indent)).Some?
    ensures TemplateToStr([(key, v)], indent) == Line(key, v, LayoutOf(indent)).value
  {
    assert [(key, v)][1..] == [];
    assert Lines([(key, v)], LayoutOf(indent)) == [Line(key, v, LayoutOf(indent)).value];
  }

  lemma ScalarLines()
    ensures Lines([("cpu", Str("1"))], LayoutOf(true)) == ["CPU" + "=" + ("\"" + "1" + "\"")]
    ensures Lines([("vcpu", Str("2"))], LayoutOf(true)) == ["VCPU" + "=" + ("\"" + "2" + "\"")]
  {
    assert Upcase("cpu") == "CPU";
    assert Upcase("vcpu") == "VCPU";
    assert [("cpu", Str("1"))][1..] == [];
    assert [("vcpu", Str("2"))][1..] == [];
  }

  lemma BlankArrayText()
    ensures ("CPU" + "=" + ("\"" + "1" + "\"")) + "\n" + ("" + "\n" + ("VCPU" + "=" + ("\"" + "2" + "\""))) == "CPU=\"1\"\n\nVCPU=\"2\""
  {
  }

  /** Between two scalar attributes, an array of blank elements leaves an empty line in the text. */
  lemma BlankArrayExample()
    ensures TemplateToStr([("cpu", Str("1")), ("nic", Arr([ENil, EStr("")])), ("vcpu", Str("2"))], true)
      == "CPU=\"1\"\n\nVCPU=\"2\""
  {
    var a, b := [("cpu", Str("1"))], [("vcpu", Str("2"))];
    var attrs := [("cpu", Str("1")), ("nic", Arr([ENil, EStr("")])), ("vcpu", Str("2"))];
    var l1, l2 := "CPU" + "=" + ("\"" + "1" + "\""), "VCPU" + "=" + ("\"" + "2" + "\"");
    BlankArrayKeepsEmptyLine(a, b, "nic", [ENil, EStr("")], true);
    assert attrs == a + [("nic", Arr([ENil, EStr("")]))] + b;
    ScalarLines();
    assert Lines(attrs, LayoutOf(true)) == [l1, "", l2];
    assert [l1, "", l2][1..] == ["", l2];
    assert ["", l2][1..] == [l2];
    assert Join([l1, "", l2], "\n") == l1 + "\n" + ("" + "\n" + l2);
    BlankArrayText();
  }

  lemma DiskEntryLines(tab: string)
    ensures EntryLines([("size", Some("10")), ("type", None)], tab) == [tab + "SIZE=\"10\"", tab + "TYPE="]
  {
    var es: Entries := [("size", Some("10")), ("type", None)];
    assert Upcase("size") == "SIZE";
    assert Upcase("type") == "TYPE";
    assert es[1..] == [("type", None)];
    assert es[1..][1..] == [];
    assert EntryLine("size", Some("10"), tab) == tab + "SIZE=\"10\"";
    assert EntryLine("type", None, tab) == tab + "TYPE=";
  }

  lemma DiskBlock(layout: Layout)
    ensures HashBlock("disk", [("size", Some("10")), ("type", None)], layout)
      == "DISK" + "=[" + layout.enter + (layout.tab + "SIZE=\"10\"" + ",\n" + (layout.tab + "TYPE=")) + "\n]\n"
  {
    var tab := layout.tab;
    DiskEntryLines(tab);
    var lines := [tab + "SIZE=\"10\"", tab + "TYPE="];
    assert lines[1..] == [tab + "TYPE="];
    assert Join(lines, ",\n") == tab + "SIZE=\"10\"" + ",\n" + (tab + "TYPE=");
    assert Upcase("disk") == "DISK";
  }

  lemma DiskTextIndented()
    ensures "DISK" + "=[" + "\n" + ("  " + "SIZE=\"10\"" + ",\n" + ("  " + "TYPE=")) + "\n]\n"
      == "DISK=[\n  SIZE=\"10\",\n  TYPE=\n]\n"
  {
  }

  lemma DiskTextCompact()
    ensures "DISK" + "=[" + "" + (" " + "SIZE=\"10\"" + ",\n" + (" " + "TYPE=")) + "\n]\n"
      == "DISK=[ SIZE=\"10\",\n TYPE=\n]\n"
  {
  }

  /** A hash value with indentation: a break after `DISK=[` and two spaces before each entry. */
  lemma IndentedHashExample()
    ensures TemplateToStr([("disk", Hash([("size", Some("10")), ("type", None)]))], true)
      == "DISK=[\n  SIZE=\"10\",\n  TYPE=\n]\n"
  {
    var es: Entries := [("size", Some("10")), ("type", None)];
    assert LayoutOf(true) == Layout("\n", "  ");
    DiskBlock(Layout("\n", "  "));
    DiskTextIndented();
    TemplateOfOne("disk", Hash(es), true);
  }

  /** The same hash value without indentation: no break after `DISK=[` and one space before each entry. */
  lemma CompactHashExample()
    ensures TemplateToStr([("disk", Hash([("size", Some("10")), ("type", None)]))], false)
      == "DISK=[ SIZE=\"10\",\n TYPE=\n]\n"
  {
    var es: Entries := [("size", Some("10")), ("type", None)];
    assert LayoutOf(false) == Layout("", " ");
    DiskBlock(Layout("", " "));
    DiskTextCompact();
    TemplateOfOne("disk", Hash(es), false);
  }

  lemma NicElems()
    ensures ElemOut("nic", EStr("a"), Layout("\n", "  ")) == "NIC" + "=" + "\"a\"" + "\n"
    ensures ElemOut("nic", EHash([("ip", Some("1"))]), Layout("\n", "  ")) == "NIC" + "=[" + "\n" + "  IP=\"1\"" + "\n]\n"
  {
    assert Upcase("nic") == "NIC";
    assert Upcase("ip") == "IP";
    assert EntryLine("ip", Some("1"), "  ") == "  IP=\"1\"";
    assert [("ip", Some("1"))][1..] == [];
    assert EntryLines([("ip", Some("1"))], "  ") == ["  IP=\"1\""];
  }

  lemma NicText()
    ensures "" + ("NIC" + "=" + "\"a\"" + "\n") + "" + ("NIC" + "=[" + "\n" + "  IP=\"1\"" + "\n]\n")
      == "NIC=\"a\"\nNIC=[\n  IP=\"1\"\n]\n"
  {
  }

  lemma NicArrayOut()
    ensures ArrayOut("nic", [EStr("a"), ENil, EHash([("ip", Some("1"))])], Layout("\n", "  "))
      == "" + ("NIC" + "=" + "\"a\"" + "\n") + "" + ("NIC" + "=[" + "\n" + "  IP=\"1\"" + "\n]\n")
  {
    var layout := Layout("\n", "  ");
    var e1, e3 := EStr("a"), EHash([("ip", Some("1"))]);
    NicElems();
    ArrayOutSnoc("nic", [], e1, layout);
    ArrayOutSnoc("nic", [e1], ENil, layout);
    ArrayOutSnoc("nic", [e1, ENil], e3, layout);
    assert [] + [e1] == [e1];
    assert [e1] + [ENil] == [e1, ENil];
    assert [e1, ENil] + [e3] == [e1, ENil, e3];
  }

  /** Array elements: a scalar gives `KEY="elem"` and a newline, a blank element nothing, a hash a block. */
  lemma ArrayExample()
    ensures TemplateToStr([("nic", Arr([EStr("a"), ENil, EHash([("ip", Some("1"))])]))], true)
      == "NIC=\"a\"\nNIC=[\n  IP=\"1\"\n]\n"
  {
    assert LayoutOf(true) == Layout("\n", "  ");
    NicArrayOut();
    NicText();
    TemplateOfOne("nic", Arr([EStr("a"), ENil, EHash([("ip", Some("1"))])]), true);
  }

  // ---------------------------------------------------------------------------
  // Keys are emitted upper-cased
  // ---------------------------------------------------------------------------

  function UpcaseEntries(es: Entries): (r: Entries)
    ensures |r| == |es|
  {
    if es == [] then [] else [(Upcase(es[0].0), es[0].1)] + UpcaseEntries(es[1..])
  }

  function UpcaseElem(e: Elem): Elem
  {
    match e
    case EHash(es) => EHash(UpcaseEntries(es))
    case _ => e
  }

  function UpcaseElems(es: seq<Elem>): (r: seq<Elem>)
    ensures |r| == |es|
  {
    seq(|es|, i requires 0 <= i < |es| => UpcaseElem(es[i]))
  }

  function UpcaseValue(v: Value): Value
  {
    match v
    case Arr(es) => Arr(UpcaseElems(es))
    case Hash(es) => Hash(UpcaseEntries(es))
    case _ => v
  }

  /** Every key, top-level and nested, upper-cased. */
  function UpcaseKeys(attrs: Attributes): (r: Attributes)
    ensures |r| == |attrs|
  {
    seq(|attrs|, i requires 0 <= i < |attrs| => (Upcase(attrs[i].0), UpcaseValue(attrs[i].1)))
  }

  lemma {:induction false} EntryLinesUpcased(es: Entries, tab: string)
    ensures EntryLines(UpcaseEntries(es), tab) == EntryLines(es, tab)
  {
    if es != [] {
      UpcaseProperties(es[0].0);
      EntryLinesUpcased(es[1..], tab);
    }
  }

  lemma ElemOutUpcased(key: string, e: Elem, layout: Layout)
    ensures ElemOut(Upcase(key), UpcaseElem(e), layout) == ElemOut(key, e, layout)
  {
    UpcaseProperties(key);
    match e
    case EHash(entries) => EntryLinesUpcased(entries, layout.tab);
    case _ =>
  }

  lemma {:induction false} ArrayOutUpcased(key: string, es: seq<Elem>, layout: Layout)
    ensures ArrayOut(Upcase(key), UpcaseElems(es), layout) == ArrayOut(key, es, layout)
    decreases |es|
  {
    if es != [] {
      var n := |es| - 1;
      var ue := UpcaseElems(es);
      assert ue[n] == UpcaseElem(es[n]);
      assert ue[..n] == UpcaseElems(es[..n]);
      assert ArrayOut(Upcase(key), ue, layout) == ArrayOut(Upcase(key), ue[..n], layout) + ElemOut(Upcase(key), ue[n], layout);
      ArrayOutUpcased(key, es[..n], layout);
      ElemOutUpcased(key, es[n], layout);
    }
  }

  /**
   * The text depends on each key, top-level or nested, only through its
   * upper-cased form: every key is emitted upper-cased.
   */
  lemma {:induction false} KeysEmittedUpcased(attrs: Attributes, layout: Layout)
    ensures Lines(UpcaseKeys(attrs), layout) == Lines(attrs, layout)
    decreases |attrs|
  {
    if attrs != [] {
      var (key, v) := attrs[0];
      UpcaseProperties(key);
      assert UpcaseKeys(attrs)[1..] == UpcaseKeys(attrs[1..]);
      KeysEmittedUpcased(attrs[1..], layout);
      match v
      case Arr(es) => ArrayOutUpcased(key, es, layout);
      case Hash(es) => EntryLinesUpcased(es, layout.tab);
      case _ =>
    }
  }

  /** template_to_str gives the same text whether or not the keys were upper-cased beforehand. */
  lemma TemplateKeysUpcased(attrs: Attributes, indent: bool)
    ensures TemplateToStr(UpcaseKeys(attrs), indent) == TemplateToStr(attrs, indent)
  {
    KeysEmittedUpcased(attrs, LayoutOf(indent));
  }

  // ---------------------------------------------------------------------------
  // The indent flag only affects hashes
  // ---------------------------------------------------------------------------

  /** Every value is a scalar or blank. */
  predicate ScalarsOnly(attrs: Attributes)
  {
    forall i :: 0 <= i < |attrs| ==> attrs[i].1.Nil? || attrs[i].1.Str?
  }

  lemma {:induction false} ScalarLinesIgnoreLayout(attrs: Attributes, l1: Layout, l2: Layout)
    requires ScalarsOnly(attrs)
    ensures Lines(attrs, l1) == Lines(attrs, l2)
    decreases |attrs|
  {
    if attrs != [] {
      assert ScalarsOnly(attrs[1..]) by {
        forall i | 0 <= i < |attrs[1..]|
          ensures attrs[1..][i].1.Nil? || attrs[1..][i].1.Str?
        {
          assert attrs[1..][i] == attrs[i + 1];
        }
      }
      ScalarLinesIgnoreLayout(attrs[1..], l1, l2);
      assert attrs[0].1.Nil? || attrs[0].1.Str?;
    }
  }

  /** Scalar attributes render identically with and without indentation. */
  lemma IndentIrrelevantForScalars(attrs: Attributes)
    requires ScalarsOnly(attrs)
    ensures TemplateToStr(attrs, true) == TemplateToStr(attrs, false)
  {
    ScalarLinesIgnoreLayout(attrs, LayoutOf(true), LayoutOf(false));
  }
}
