/**
 * The code generation and parsing of src/utils/core.ts: `genSvg` turns an icon tree into JSX
 * markup, `genComponent` wraps that markup in a React component declaration, and the text part
 * of `parseIconNames` lists the icons an icon package's type declarations export.
 */
module Core {
  import opened Wrappers
  import opened Strings

  /** react-icons' `IconTree`: a tag, its attributes in `Object.entries` order, and its children. */
  datatype IconTree = IconTree(tag: string, attr: seq<(string, string)>, child: seq<IconTree>)

  /** `${key}="${value}"`. */
  function Attribute(key: string, value: string): string {
    key + "=\"" + value + "\""
  }

  /** The attribute string of `genSvg`: the `key="value"` pairs joined by single spaces. */
  function AttrText(attr: seq<(string, string)>): string {
    Join(seq(|attr|, i requires 0 <= i < |attr| => Attribute(attr[i].0, attr[i].1)), " ")
  }

  /** `genSvg`: the opening tag with its attributes and `{...props}`, the children, the closing tag. */
  function GenSvg(icon: IconTree): (r: string)
    decreases icon
    ensures StartsWith(r, Indent4 + "<" + icon.tag + " ")
    ensures EndsWith(r, "</" + icon.tag + ">" + Indent2)
  {
    var opening := Indent4 + "<" + icon.tag + " ";
    var closing := "</" + icon.tag + ">" + Indent2;
    var open := OpenTag(icon.tag, AttrText(icon.attr));
    var r := open + ChildrenSvg(icon.child) + CloseTag(icon.tag);
    assert open[..|opening|] == opening;
    assert r[..|opening|] == opening;
    assert CloseTag(icon.tag) == Indent4 + closing;
    assert r[|r| - |closing|..] == closing;
    r
  }

  /** The line breaks and indentation of the `genSvg` template, and its props spread. */
  const Indent2 := "\n  "
  const Indent4 := "\n    "
  const Indent6 := "\n      "
  const SpreadProps := " {...props}"

  /** The template text of `genSvg` up to the children. */
  function OpenTag(tag: string, attrs: string): string {
    Indent4 + "<" + tag + " " + attrs + SpreadProps + ">" + Indent6
  }

  /** The template text of `genSvg` after the children. */
  function CloseTag(tag: string): string {
    Indent4 + "</" + tag + ">" + Indent2
  }

  /** `icon.child?.map((child) => genSvg(child))?.join("") ?? ""`. */
  function ChildrenSvg(children: seq<IconTree>): string
    decreases children
  {
    if children == [] then "" else GenSvg(children[0]) + ChildrenSvg(children[1..])
  }

  /** Children are serialised one after another, with nothing between them. */
  lemma {:induction false} ChildrenConcat(a: seq<IconTree>, b: seq<IconTree>)
    ensures ChildrenSvg(a + b) == ChildrenSvg(a) + ChildrenSvg(b)
  {
    if a != [] {
      assert (a + b)[1..] == a[1..] + b;
      ChildrenConcat(a[1..], b);
    } else {
      assert a + b == b;
    }
  }

  /** The number of nodes of a tree. */
  function Size(icon: IconTree): nat
    decreases icon
  {
    1 + SizeAll(icon.child)
  }

  function SizeAll(children: seq<IconTree>): nat
    decreases children
  {
    if children == [] then 0 else Size(children[0]) + SizeAll(children[1..])
  }

  /** No tag, attribute name or attribute value in the tree holds the character `c`. */
  predicate Free(icon: IconTree, c: char)
    decreases icon
  {
    && c !in icon.tag
    && (forall i :: 0 <= i < |icon.attr| ==> c !in icon.attr[i].0 && c !in icon.attr[i].1)
    && FreeAll(icon.child, c)
  }

  predicate FreeAll(children: seq<IconTree>, c: char)
    decreases children
  {
    children == [] || (Free(children[0], c) && FreeAll(children[1..], c))
  }

  /** An attribute string holds `c` only where an attribute name or value does. */
  lemma AttrTextFree(attr: seq<(string, string)>, c: char)
    requires c != '=' && c != '"' && c != ' '
    requires forall i :: 0 <= i < |attr| ==> c !in attr[i].0 && c !in attr[i].1
    ensures c !in AttrText(attr)
  {
    var parts := seq(|attr|, i requires 0 <= i < |attr| => Attribute(attr[i].0, attr[i].1));
    JoinFree(parts, " ", c);
  }

  lemma {:induction false} JoinFree(parts: seq<string>, sep: string, c: char)
    requires c !in sep && forall i :: 0 <= i < |parts| ==> c !in parts[i]
    ensures c !in Join(parts, sep)
  {
    if |parts| > 1 {
      JoinFree(parts[1..], sep, c);
    }
  }

  /**
   * Every node contributes one opening and one closing tag: when no name or value holds an
   * angle bracket, the markup has two `<` and two `>` per node.
   */
  lemma {:induction false} GenSvgBalanced(icon: IconTree)
    requires Free(icon, '<') && Free(icon, '>')
    decreases icon
    ensures Count(GenSvg(icon), '<') == 2 * Size(icon)
    ensures Count(GenSvg(icon), '>') == 2 * Size(icon)
  {
    ChildrenBalanced(icon.child);
    var open, kids, close := OpenTag(icon.tag, AttrText(icon.attr)), ChildrenSvg(icon.child), CloseTag(icon.tag);
    TagsHoldOneBracket(icon.tag, icon.attr);
    CountConcat(open + kids, close, '<');
    CountConcat(open, kids, '<');
    CountConcat(open + kids, close, '>');
    CountConcat(open, kids, '>');
  }

  /** The opening and the closing tag text each hold one `<` and one `>`. */
  lemma TagsHoldOneBracket(tag: string, attr: seq<(string, string)>)
    requires '<' !in tag && '>' !in tag
    requires forall i :: 0 <= i < |attr| ==> '<' !in attr[i].0 && '<' !in attr[i].1
    requires forall i :: 0 <= i < |attr| ==> '>' !in attr[i].0 && '>' !in attr[i].1
    ensures Count(OpenTag(tag, AttrText(attr)), '<') == 1 && Count(OpenTag(tag, AttrText(attr)), '>') == 1
    ensures Count(CloseTag(tag), '<') == 1 && Count(CloseTag(tag), '>') == 1
  {
    AttrTextFree(attr, '<');
    AttrTextFree(attr, '>');
    OpenHoldsOne(tag, AttrText(attr), '<');
    OpenHoldsOne(tag, AttrText(attr), '>');
    CloseHoldsOne(tag, '<');
    CloseHoldsOne(tag, '>');
  }

  lemma OpenHoldsOne(tag: string, attrs: string, c: char)
    requires c == '<' || c == '>'
    requires c !in tag && c !in attrs
    ensures Count(OpenTag(tag, attrs), c) == 1
  {
    TemplateCounts(c);
    CountAbsent(tag, c);
    CountAbsent(attrs, c);
    CountConcat(Indent4 + "<" + tag + " " + attrs + SpreadProps + ">", Indent6, c);
    CountConcat(Indent4 + "<" + tag + " " + attrs + SpreadProps, ">", c);
    CountConcat(Indent4 + "<" + tag + " " + attrs, SpreadProps, c);
    CountConcat(Indent4 + "<" + tag + " ", attrs, c);
    CountConcat(Indent4 + "<" + tag, " ", c);
    CountConcat(Indent4 + "<", tag, c);
    CountConcat(Indent4, "<", c);
  }

  lemma CloseHoldsOne(tag: string, c: char)
    requires c == '<' || c == '>'
    requires c !in tag
    ensures Count(CloseTag(tag), c) == 1
  {
    TemplateCounts(c);
    CountAbsent(tag, c);
    CountConcat(Indent4 + "</" + tag + ">", Indent2, c);
    CountConcat(Indent4 + "</" + tag, ">", c);
    CountConcat(Indent4 + "</", tag, c);
    CountConcat(Indent4, "</", c);
  }

  /** The angle brackets in the fixed text of the `genSvg` template. */
  lemma TemplateCounts(c: char)
    requires c == '<' || c == '>'
    ensures Count(Indent2, c) == 0 && Count(Indent4, c) == 0 && Count(Indent6, c) == 0
    ensures Count(SpreadProps, c) == 0 && Count(" ", c) == 0
    ensures Count("<", c) == (if c == '<' then 1 else 0)
    ensures Count("</", c) == (if c == '<' then 1 else 0)
    ensures Count(">", c) == (if c == '>' then 1 else 0)
  {
    IndentsFree(c);
    CountAbsent(SpreadProps, c);
    CountAbsent(" ", c);
    BracketCounts(c);
  }

  lemma IndentsFree(c: char)
    requires c == '<' || c == '>'
    ensures Count(Indent2, c) == 0 && Count(Indent4, c) == 0 && Count(Indent6, c) == 0
  {
    CountAbsent(Indent2, c);
    CountAbsent(Indent4, c);
    CountAbsent(Indent6, c);
  }

  lemma BracketCounts(c: char)
    requires c == '<' || c == '>'
    ensures Count("<", c) == (if c == '<' then 1 else 0)
    ensures Count("</", c) == (if c == '<' then 1 else 0)
    ensures Count(">", c) == (if c == '>' then 1 else 0)
  {
    assert "</"[1..] == "/";
  }

  lemma {:induction false} ChildrenBalanced(children: seq<IconTree>)
    requires FreeAll(children, '<') && FreeAll(children, '>')
    decreases children
    ensures Count(ChildrenSvg(children), '<') == 2 * SizeAll(children)
    ensures Count(ChildrenSvg(children), '>') == 2 * SizeAll(children)
  {
    if children != [] {
      GenSvgBalanced(children[0]);
      ChildrenBalanced(children[1..]);
      CountConcat(GenSvg(children[0]), ChildrenSvg(children[1..]), '<');
      CountConcat(GenSvg(children[0]), ChildrenSvg(children[1..]), '>');
    }
  }

  /** Reads one `key="value"` off the front of `text`: the key up to the first `=`, a quote, the value up to the next quote. */
  function ParseAttribute(text: string): (r: Option<(string, string, string)>)
    ensures r.Some? ==> |r.value.2| < |text|
  {
    match IndexOf(text, "=")
    case None => None
    case Some(i) =>
      if i + 1 < |text| && text[i + 1] == '"' then
        var after := text[i + 2..];
        match IndexOf(after, "\"")
        case None => None
        case Some(j) => Some((text[..i], after[..j], after[j + 1..]))
      else None
  }

  /** Reads an attribute string back into its `(key, value)` entries. */
  function ParseAttributes(text: string): Option<seq<(string, string)>>
    decreases |text|
  {
    if text == "" then Some([])
    else match ParseAttribute(text)
      case None => None
      case Some((key, value, rest)) =>
        if rest == "" then Some([(key, value)])
        else if rest[0] != ' ' then None
        else match ParseAttributes(rest[1..])
          case Some(more) => if more == [] then None else Some([(key, value)] + more)
          case None => None
  }

  lemma ParseAttributeFront(key: string, value: string, rest: string)
    requires '=' !in key && '"' !in value
    ensures ParseAttribute(Attribute(key, value) + rest) == Some((key, value, rest))
  {
    var text := Attribute(key, value) + rest;
    var after := value + ['"'] + rest;
    assert text == key + ['='] + (['"'] + after);
    FirstOccurrenceOfChar(key, '=', ['"'] + after);
    assert text[|key| + 1] == '"';
    assert text[|key| + 2..] == after;
    FirstOccurrenceOfChar(value, '"', rest);
    assert text[..|key|] == key;
    assert after[..|value|] == value && after[|value| + 1..] == rest;
  }

  /**
   * The attribute string lists every entry, in order: when no key holds `=` and no value holds
   * a quote, it reads back to the very entries it was made from.
   */
  lemma {:induction false} AttrTextRoundTrip(attr: seq<(string, string)>)
    requires forall i :: 0 <= i < |attr| ==> '=' !in attr[i].0 && '"' !in attr[i].1
    ensures ParseAttributes(AttrText(attr)) == Some(attr)
  {
    if attr != [] {
      var key, value := attr[0].0, attr[0].1;
      if |attr| == 1 {
        AttrTextOne(attr);
      } else {
        var tail := attr[1..];
        AttrTextRoundTrip(tail);
        AttrTextCons(attr);
        ParseOneThenMore(key, value, AttrText(tail), tail);
        assert attr == [(key, value)] + tail;
      }
    }
  }

  lemma AttrTextOne(attr: seq<(string, string)>)
    requires |attr| == 1 && '=' !in attr[0].0 && '"' !in attr[0].1
    ensures AttrText(attr) == Attribute(attr[0].0, attr[0].1)
    ensures ParseAttributes(AttrText(attr)) == Some(attr)
  {
    var key, value := attr[0].0, attr[0].1;
    ParseAttributeFront(key, value, "");
    assert Attribute(key, value) + "" == Attribute(key, value);
    assert attr == [(key, value)];
  }

  lemma AttrTextCons(attr: seq<(string, string)>)
    requires |attr| > 1
    ensures AttrText(attr) == Attribute(attr[0].0, attr[0].1) + " " + AttrText(attr[1..])
  {
    var parts := seq(|attr|, i requires 0 <= i < |attr| => Attribute(attr[i].0, attr[i].1));
    assert parts[1..] == seq(|attr[1..]|, i requires 0 <= i < |attr[1..]| => Attribute(attr[1..][i].0, attr[1..][i].1));
  }

  lemma ParseOneThenMore(key: string, value: string, more: string, entries: seq<(string, string)>)
    requires '=' !in key && '"' !in value
    requires ParseAttributes(more) == Some(entries) && entries != []
    ensures ParseAttributes(Attribute(key, value) + " " + more) == Some([(key, value)] + entries)
  {
    var rest := " " + more;
    ParseAttributeFront(key, value, rest);
    assert Attribute(key, value) + " " + more == Attribute(key, value) + rest;
    assert Attribute(key, value)[|key|] == '=';
    assert rest[1..] == more;
  }

  /** The fixed text of the `genComponent` template around the name and the markup. */
  const ComponentHead := "\nexport const "
  const ComponentMid := " React.FC<Svg> = (props) => {\n  return (\n    "
  const ComponentTail := "\n  );\n};  \n  "

  /** `genComponent`: an exported React function component named `name` that returns `svg`. */
  function GenComponent(name: string, svg: string): (r: string)
    ensures ':' !in name ==> ReadComponent(r) == Some((name, svg))
  {
    var r := ComponentHead + name + ":" + ComponentMid + svg + ComponentTail;
    if ':' in name then r
    else
      TemplateRoundTrip(ComponentHead, name, ComponentMid, svg, ComponentTail);
      r
  }

  /** Reads a generated component back, see `ReadTemplate`. */
  function ReadComponent(text: string): Option<(string, string)> {
    ReadTemplate(text, ComponentHead, ComponentMid, ComponentTail)
  }

  /**
   * Reads back `head + name + ":" + mid + svg + tail`: the name runs from the end of the head
   * to the first `:`, and the markup sits between the middle and the tail.
   */
  function ReadTemplate(text: string, head: string, mid: string, tail: string): Option<(string, string)> {
    if !StartsWith(text, head) then None
    else
      var body := text[|head|..];
      match IndexOf(body, ":")
      case None => None
      case Some(i) =>
        match ReadMarkup(body[i + 1..], mid, tail)
        case None => None
        case Some(svg) => Some((body[..i], svg))
  }

  /** The markup between the middle and the tail of the template. */
  function ReadMarkup(after: string, mid: string, tail: string): Option<string> {
    if |mid| + |tail| <= |after| && after[..|mid|] == mid && after[|after| - |tail|..] == tail
    then Some(after[|mid|..|after| - |tail|])
    else None
  }

  lemma TemplateRoundTrip(head: string, name: string, mid: string, svg: string, tail: string)
    requires ':' !in name
    ensures ReadTemplate(head + name + ":" + mid + svg + tail, head, mid, tail) == Some((name, svg))
  {
    var body := name + [':'] + (mid + svg + tail);
    var text := head + name + ":" + mid + svg + tail;
    assert text == head + body;
    assert text[..|head|] == head && text[|head|..] == body;
    NameThenMarkup(name, mid, svg, tail);
  }

  lemma NameThenMarkup(name: string, mid: string, svg: string, tail: string)
    requires ':' !in name
    ensures var body := name + [':'] + (mid + svg + tail);
      IndexOf(body, ":") == Some(|name|) && body[..|name|] == name &&
      ReadMarkup(body[|name| + 1..], mid, tail) == Some(svg)
  {
    var after := mid + svg + tail;
    var body := name + [':'] + after;
    FirstOccurrenceOfChar(name, ':', after);
    assert body[..|name|] == name && body[|name| + 1..] == after;
    MarkupBetween(mid, svg, tail);
  }

  lemma MarkupBetween(mid: string, svg: string, tail: string)
    ensures ReadMarkup(mid + svg + tail, mid, tail) == Some(svg)
  {
    var after := mid + svg + tail;
    assert after[..|mid|] == mid;
    assert after[|after| - |tail|..] == tail;
    assert after[|mid|..|after| - |tail|] == svg;
  }

  /** What `parseIconNames` filters lines by, and what it splits them at. */
  const DeclarationPrefix := "export declare const"
  const DeclarationSeparator := DeclarationPrefix + " "

  /** `ErrorType.CANNOT_PARSE_ICON_NAMES`. */
  const CannotParseIconNames := "Cannot parse icon names"

  /**
   * `line.split("export declare const ")[1]!.split(":")[0]!`: the text after the first
   * separator, up to the next separator, cut at the first `:`. `None` is the TypeError thrown
   * when the separator does not occur in the line, so that there is no second piece.
   */
  function IconName(line: string): (r: Option<string>)
    ensures r.None? <==> !Contains(line, DeclarationSeparator)
    ensures r.Some? ==> ':' !in r.value
  {
    var parts := Split(line, DeclarationSeparator);
    if |parts| < 2 then None
    else
      var name := Split(parts[1], ":")[0];
      SplitPieces(parts[1], ":");
      NoCharWithoutOccurrence(name, ':');
      Some(name)
  }

  lemma NoCharWithoutOccurrence(s: string, c: char)
    requires !Contains(s, [c])
    ensures c !in s
  {
    forall i | 0 <= i < |s| ensures s[i] != c {
      assert !OccursAt(s, [c], i);
      assert s[i..i + 1] == [s[i]];
    }
  }

  /** The lines that start with the declaration prefix, in order: `.filter(...)`. */
  function Declarations(lines: seq<string>): (r: seq<string>)
    ensures IsSubsequence(r, lines)
    ensures forall l :: l in r <==> l in lines && StartsWith(l, DeclarationPrefix)
  {
    if lines == [] then []
    else if StartsWith(lines[0], DeclarationPrefix) then [lines[0]] + Declarations(lines[1..])
    else Declarations(lines[1..])
  }

  /** The filter works line by line, so it keeps the order and the repeats of the lines. */
  lemma {:induction false} DeclarationsConcat(a: seq<string>, b: seq<string>)
    ensures Declarations(a + b) == Declarations(a) + Declarations(b)
  {
    if a != [] {
      assert (a + b)[1..] == a[1..] + b;
      DeclarationsConcat(a[1..], b);
    } else {
      assert a + b == b;
    }
  }

  /**
   * The filter/map pipeline of `parseIconNames` over the lines of a declaration file: one name
   * per declaration line, in order, or the parse error as soon as one declaration line has no
   * separator.
   */
  function IconNamesOfLines(lines: seq<string>): (r: Result<seq<string>, string>)
    ensures r.Err? ==> r.error == CannotParseIconNames
    ensures r.Err? <==> exists l :: l in Declarations(lines) && IconName(l).None?
    ensures r.Ok? ==> |r.value| == |Declarations(lines)|
    ensures r.Ok? ==> forall k :: 0 <= k < |r.value| ==> IconName(Declarations(lines)[k]) == Some(r.value[k])
    ensures r.Ok? ==> forall k :: 0 <= k < |r.value| ==> ':' !in r.value[k]
  {
    if lines == [] then Ok([])
    else if !StartsWith(lines[0], DeclarationPrefix) then IconNamesOfLines(lines[1..])
    else match IconName(lines[0])
      case None => Err(CannotParseIconNames)
      case Some(name) =>
        match IconNamesOfLines(lines[1..])
        case Ok(names) => Ok([name] + names)
        case Err(e) => Err(e)
  }

  /** `parseIconNames` on the text of a package's `index.d.ts`. */
  function ParseIconNames(text: string): (r: Result<seq<string>, string>)
    ensures r.Err? ==> r.error == CannotParseIconNames
    ensures r.Ok? ==> forall k :: 0 <= k < |r.value| ==> ':' !in r.value[k]
  {
    IconNamesOfLines(Split(text, "\n"))
  }

  /** A declaration line of an icon package, as its `index.d.ts` lists each icon. */
  function DeclarationLine(name: string): string {
    DeclarationSeparator + name + ":" + " IconType;"
  }

  /** A declaration file listing `names`, one line each. */
  function DeclarationFile(names: seq<string>): string {
    Join(seq(|names|, i requires 0 <= i < |names| => DeclarationLine(names[i])), "\n")
  }

  /** Identifier-like names: no colon, no space, no line break. */
  predicate PlainName(name: string) {
    ':' !in name && ' ' !in name && '\n' !in name
  }

  /** Parsing a declaration file lists exactly the names it declares, in order. */
  lemma ParseDeclarationFile(names: seq<string>)
    requires forall i :: 0 <= i < |names| ==> PlainName(names[i])
    ensures ParseIconNames(DeclarationFile(names)) == Ok(names)
  {
    var lines := seq(|names|, i requires 0 <= i < |names| => DeclarationLine(names[i]));
    if names == [] {
      assert DeclarationFile(names) == "";
      assert !OccursAt("", "\n", 0);
      assert Split("", "\n") == [""];
      assert !StartsWith("", DeclarationPrefix);
    } else {
      SeparatorShape();
      forall i | 0 <= i < |lines| ensures '\n' !in lines[i] {
        assert lines[i] == DeclarationSeparator + names[i] + (":" + " IconType;");
      }
      SplitJoin(lines, "\n");
      DeclaredLines(lines, names);
    }
  }

  lemma {:induction false} DeclaredLines(lines: seq<string>, names: seq<string>)
    requires |lines| == |names|
    requires forall i :: 0 <= i < |names| ==> PlainName(names[i]) && lines[i] == DeclarationLine(names[i])
    ensures IconNamesOfLines(lines) == Ok(names)
  {
    if names != [] {
      var line, name := lines[0], names[0];
      assert line == DeclarationLine(name);
      DeclaredName(name, " IconType;");
      assert StartsWith(line, DeclarationPrefix) && IconName(line) == Some(name);
      var rest, more := lines[1..], names[1..];
      assert forall i :: 0 <= i < |more| ==> more[i] == names[i + 1] && rest[i] == lines[i + 1];
      DeclaredLines(rest, more);
      assert names == [name] + more;
    }
  }

  /**
   * One kept line without the separator anywhere in it makes the whole parse fail, whatever
   * the lines around it hold.
   */
  lemma MissingSeparatorFails(before: seq<string>, line: string, after: seq<string>)
    requires StartsWith(line, DeclarationPrefix) && !Contains(line, DeclarationSeparator)
    ensures IconNamesOfLines(before + [line] + after) == Err(CannotParseIconNames)
  {
    var lines := before + [line] + after;
    assert lines[|before|] == line;
    assert line in Declarations(lines);
  }

  /** No parsed name holds a `:`, so every parsed name reads back from the component generated for it. */
  lemma ParsedNamesReadBack(text: string, name: string, svg: string)
    requires ParseIconNames(text).Ok? && name in ParseIconNames(text).value
    ensures ReadComponent(GenComponent(name, svg)) == Some((name, svg))
  {
    var lines := Split(text, "\n");
    var names := ParseIconNames(text).value;
    var k :| 0 <= k < |names| && names[k] == name;
    assert IconName(Declarations(lines)[k]) == Some(name);
  }

  /** Splitting a text that starts with the separator gives an empty first piece, then the pieces of the rest. */
  lemma SplitAfterSeparator(sep: string, tail: string)
    requires |sep| > 0
    ensures Split(sep + tail, sep) == [""] + Split(tail, sep)
  {
    var line := sep + tail;
    assert OccursAt(line, sep, 0);
    assert line[..0] == "" && line[|sep|..] == tail;
  }

  /** A separator holding a space but no colon cannot start inside a space-free, colon-free name or at the colon that ends it. */
  lemma NoSeparatorInName(sep: string, name: string, rest: string)
    requires ' ' in sep && ':' !in sep
    requires ':' !in name && ' ' !in name
    ensures forall j :: 0 <= j < |name| + 1 ==> !OccursAt(name + ":" + rest, sep, j)
  {
    var tail := name + ":" + rest;
    var p :| 0 <= p < |sep| && sep[p] == ' ';
    forall j | 0 <= j < |name| + 1 ensures !OccursAt(tail, sep, j) {
      if j + |sep| <= |name| {
        assert tail[j..j + |sep|][p] == name[j + p];
      } else if j + |sep| <= |tail| {
        assert tail[j..j + |sep|][|name| - j] == tail[|name|];
      }
    }
  }

  /** Under such a separator, `sep + NAME + ":" + rest` has NAME before the first colon of its second piece. */
  lemma NameAfterSeparator(sep: string, name: string, rest: string)
    requires ' ' in sep && ':' !in sep
    requires ':' !in name && ' ' !in name
    ensures |Split(sep + name + ":" + rest, sep)| >= 2
    ensures Split(Split(sep + name + ":" + rest, sep)[1], ":")[0] == name
  {
    var tail := name + ":" + rest;
    assert sep + name + ":" + rest == sep + tail;
    SplitAfterSeparator(sep, tail);
    FirstPieceName(sep, name, rest);
  }

  lemma FirstPieceName(sep: string, name: string, rest: string)
    requires ' ' in sep && ':' !in sep
    requires ':' !in name && ' ' !in name
    ensures Split(Split(name + ":" + rest, sep)[0], ":")[0] == name
  {
    var tail := name + ":" + rest;
    NoSeparatorInName(sep, name, rest);
    FirstPieceKeeps(tail, sep, |name| + 1);
    var piece := Split(tail, sep)[0];
    assert tail[..|name| + 1] == name + [':'];
    assert piece == name + [':'] + piece[|name| + 1..];
    FirstPieceAtChar(name, ':', piece[|name| + 1..]);
  }

  lemma SeparatorShape()
    ensures StartsWith(DeclarationSeparator, DeclarationPrefix)
    ensures ' ' in DeclarationSeparator && ':' !in DeclarationSeparator && '\n' !in DeclarationSeparator
  {
    assert DeclarationSeparator[|DeclarationPrefix|] == ' ';
  }

  /** A declaration line `export declare const NAME: ...` yields NAME, for a name without spaces or colons. */
  lemma DeclaredName(name: string, rest: string)
    requires ':' !in name && ' ' !in name
    ensures StartsWith(DeclarationSeparator + name + ":" + rest, DeclarationPrefix)
    ensures IconName(DeclarationSeparator + name + ":" + rest) == Some(name)
  {
    var line := DeclarationSeparator + name + ":" + rest;
    SeparatorShape();
    assert line[..|DeclarationPrefix|] == DeclarationSeparator[..|DeclarationPrefix|];
    NameAfterSeparator(DeclarationSeparator, name, rest);
  }

  /** For example, a file made of `export declare constX` alone fails to parse. */
  lemma MissingSpaceFails()
    ensures ParseIconNames("export declare constX") == Err(CannotParseIconNames)
  {
    var line := "export declare constX";
    assert line[20] == 'X' && DeclarationSeparator[20] == ' ';
    assert !OccursAt(line, DeclarationSeparator, 0);
    assert !Contains(line, DeclarationSeparator);
    assert line[..|DeclarationPrefix|] == DeclarationPrefix;
    assert '\n' !in line;
    NoOccurrenceWithoutChar(line, '\n');
    assert Split(line, "\n") == [line];
  }

  lemma NoOccurrenceWithoutChar(s: string, c: char)
    requires c !in s
    ensures !Contains(s, [c])
  {
    forall j | 0 <= j <= |s| ensures !OccursAt(s, [c], j) {
      if j < |s| {
        assert s[j] in s;
      }
    }
  }
}
