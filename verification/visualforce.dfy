/** scripts/validate_visualforce.py: rule checks over parsed Visualforce pages and components. */
module Visualforce {
  import opened Wrappers
  import opened Strings

  /** A parsed XML element: its tag as the parser reports it (`{namespace}name` or `name`), the names
      of its attributes, and its children in document order. */
  datatype Element = Element(tag: string, attrs: set<string>, children: seq<Element>)

  /** `root.iter()`: the element, then the elements below it, in document (pre-)order. */
  function Iter(e: Element): (r: seq<Element>)
    ensures |r| >= 1 && r[0] == e
    ensures forall k, x :: 0 <= k < |e.children| && x in Iter(e.children[k]) ==> x in r
    ensures forall x :: x in r ==> x == e || exists k :: 0 <= k < |e.children| && x in Iter(e.children[k])
    decreases e, 1
  {
    [e] + IterChildren(e, 0)
  }

  /** The walks of children `i` onwards, one after another. */
  function IterChildren(parent: Element, i: nat): (r: seq<Element>)
    requires i <= |parent.children|
    ensures forall k, x :: i <= k < |parent.children| && x in Iter(parent.children[k]) ==> x in r
    ensures forall x :: x in r ==> exists k :: i <= k < |parent.children| && x in Iter(parent.children[k])
    decreases parent, 0, |parent.children| - i
  {
    if i == |parent.children| then [] else Iter(parent.children[i]) + IterChildren(parent, i + 1)
  }

  /** The key the rules are looked up by: "{ns}name" becomes "ns:name" and a plain tag is kept.
      `tag.split('}')` must give exactly two pieces when a '}' is present; otherwise the unpacking
      raises, which is the failure here. The namespace loses its first character, the '{'. */
  function TagKey(tag: string): (r: Result<string, string>)
    ensures '}' !in tag ==> r == Success(tag)
  {
    if '}' !in tag then Success(tag)
    else
      var parts := SplitOn(tag, '}');
      if |parts| != 2 then Failure("too many values to unpack")
      else
        var namespace := if |parts[0]| == 0 then "" else parts[0][1..];
        Success(if namespace != "" then namespace + ":" + parts[1] else parts[1])
  }

  /** Reference definition of the namespaced case: "{ns}name" with a non-empty `ns` gives "ns:name". */
  lemma TagKeyNamespaced(ns: string, name: string)
    requires '}' !in ns && '}' !in name && ns != ""
    ensures TagKey("{" + ns + "}" + name) == Success(ns + ":" + name)
  {
    var tag := "{" + ns + "}" + name;
    var i := |ns| + 1;
    assert tag[i] == '}';
    assert tag[..i] == "{" + ns;
    assert '}' !in tag[..i];
    assert IndexOfChar(tag, '}') == i;
    assert tag[i + 1..] == name;
    assert SplitOn(name, '}') == [name];
    assert SplitOn(tag, '}') == ["{" + ns, name];
    assert ("{" + ns)[1..] == ns;
  }

  /** The tag key fails exactly when the tag holds more than one '}'. */
  lemma TagKeyFails(tag: string)
    ensures TagKey(tag).Failure? <==> CountChar(tag, '}') >= 2
  {
    SplitOnCount(tag, '}');
    if '}' !in tag {
      CountCharAbsent(tag, '}');
    } else {
      var i := IndexOfChar(tag, '}');
      assert |SplitOn(tag, '}')| == 1 + |SplitOn(tag[i + 1..], '}')|;
    }
  }

  datatype Severity = Error | Warning | Info

  /** One reported issue, keyed by the file's path. */
  datatype VfIssue =
    | FileTooLarge(file: string, size: int)
    | SyntaxError(file: string, message: string)
    | UnsupportedAttribute(file: string, element: string, attribute: string, suggestion: string)
    | DeprecatedTag(file: string, tag: string, suggestion: string)
    | PotentialXss(file: string, message: string)
    | MissingSlds(file: string)
  {
    function Severity(): Severity {
      match this
      case FileTooLarge(_, _) => Warning
      case SyntaxError(_, _) => Error
      case UnsupportedAttribute(_, _, _, _) => Error
      case DeprecatedTag(_, _, _) => Warning
      case PotentialXss(_, _) => Warning
      case MissingSlds(_) => Info
    }
  }

  /** The `unsupported_attributes` rules, in table order: base tag and its unsupported attributes. */
  const UnsupportedRules: seq<(string, seq<string>)> :=
    [("apex:page", ["dir", "xml:lang", "lang"]), ("apex:form", ["name"])]

  /** The `deprecated_tags` rules: exact key to replacement. */
  const DeprecatedTags: map<string, string> := map[
    "apex:include" := "apex:dynamicComponent",
    "apex:detail" := "Use standard page layouts instead",
    "apex:relatedList" := "Use standard page layouts instead"
  ]

  const DirSuggestion: string := "Use CSS instead: <div style=\"direction: rtl;\">"

  /** The fix offered for an unsupported attribute: only `dir` has one. */
  function FixFor(attr: string): (fix: string)
    ensures fix != "" <==> attr == "dir"
  {
    if attr == "dir" then DirSuggestion else ""
  }

  /** `base_tag in full_tag or full_tag.endswith(base_tag)` */
  predicate RuleApplies(key: string, baseTag: string) {
    Contains(key, baseTag) || EndsWith(key, baseTag)
  }

  /** The second disjunct adds nothing: a key that ends with the base tag contains it. */
  lemma RuleAppliesIsContains(key: string, baseTag: string)
    ensures RuleApplies(key, baseTag) <==> Contains(key, baseTag)
  {
    if EndsWith(key, baseTag) {
      EndsWithContains(key, baseTag);
    }
  }

  /** The attributes listed for `key` by the rules from `i` on, in table order. */
  function ListedAttrs(key: string, rules: seq<(string, seq<string>)>): seq<string>
    decreases |rules|
  {
    if |rules| == 0 then []
    else (if RuleApplies(key, rules[0].0) then rules[0].1 else []) + ListedAttrs(key, rules[1..])
  }

  /** One issue per listed attribute present on the element, in table order. */
  function AttrIssues(file: string, key: string, attrs: set<string>, listed: seq<string>): seq<VfIssue>
    decreases |listed|
  {
    if |listed| == 0 then []
    else
      var a := listed[0];
      (if a in attrs then [UnsupportedAttribute(file, key, a, FixFor(a))] else []) + AttrIssues(file, key, attrs, listed[1..])
  }

  /** Every issue names a listed attribute the element carries, with its fix; every such attribute
      is reported. */
  lemma {:induction false} AttrIssuesSpec(file: string, key: string, attrs: set<string>, listed: seq<string>)
    ensures forall x :: x in AttrIssues(file, key, attrs, listed) ==>
              (x.UnsupportedAttribute? && x.file == file && x.element == key
               && x.attribute in attrs && x.attribute in listed && x.suggestion == FixFor(x.attribute))
    ensures forall a :: a in listed && a in attrs ==> exists x :: x in AttrIssues(file, key, attrs, listed) && x.attribute == a
    decreases |listed|
  {
    if |listed| > 0 {
      AttrIssuesSpec(file, key, attrs, listed[1..]);
      var a := listed[0];
      assert forall b :: b in listed <==> b == a || b in listed[1..];
      var r := AttrIssues(file, key, attrs, listed);
      if a in attrs {
        assert r[0].attribute == a;
      }
    }
  }

  function AttrIssueCount(attrs: set<string>, listed: seq<string>): nat
    decreases |listed|
  {
    if |listed| == 0 then 0 else (if listed[0] in attrs then 1 else 0) + AttrIssueCount(attrs, listed[1..])
  }

  /** Exactly one issue per listed attribute occurrence present on the element. */
  lemma {:induction false} AttrIssuesCount(file: string, key: string, attrs: set<string>, listed: seq<string>)
    ensures |AttrIssues(file, key, attrs, listed)| == AttrIssueCount(attrs, listed)
    decreases |listed|
  {
    if |listed| > 0 {
      AttrIssuesCount(file, key, attrs, listed[1..]);
    }
  }

  /** The unsupported-attribute issues of one element, or the failure of its tag key. */
  function ElementUnsupported(file: string, e: Element): (r: Result<seq<VfIssue>, string>)
    ensures r.Failure? <==> TagKey(e.tag).Failure?
  {
    var key :- TagKey(e.tag);
    Success(AttrIssues(file, key, e.attrs, ListedAttrs(key, UnsupportedRules)))
  }

  /** The deprecated-tag issue of one element, if its key is exactly a deprecated tag. */
  function ElementDeprecated(file: string, e: Element): (r: Result<seq<VfIssue>, string>)
    ensures r.Failure? <==> TagKey(e.tag).Failure?
    ensures r.Success? ==> |r.value| <= 1
    ensures r.Success? ==> (|r.value| == 1 <==> TagKey(e.tag).value in DeprecatedTags)
    ensures r.Success? && |r.value| == 1 ==>
              r.value[0] == DeprecatedTag(file, TagKey(e.tag).value,
                                          "Replace with: " + DeprecatedTags[TagKey(e.tag).value])
  {
    var key :- TagKey(e.tag);
    if key in DeprecatedTags then Success([DeprecatedTag(file, key, "Replace with: " + DeprecatedTags[key])])
    else Success([])
  }

  /** A per-element check run over elements in order; the first failure aborts. */
  function CheckElements(file: string, es: seq<Element>, deprecated: bool): (r: Result<seq<VfIssue>, string>)
    ensures r.Failure? <==> exists e :: e in es && TagKey(e.tag).Failure?
    decreases |es|
  {
    if |es| == 0 then Success([])
    else
      var here :- if deprecated then ElementDeprecated(file, es[0]) else ElementUnsupported(file, es[0]);
      var rest :- CheckElements(file, es[1..], deprecated);
      assert forall e :: e in es <==> e == es[0] || e in es[1..];
      Success(here + rest)
  }

  /** Deprecated-tag warnings: one per element whose key is deprecated, in document order. */
  lemma {:induction false} DeprecatedCount(file: string, es: seq<Element>)
    requires CheckElements(file, es, true).Success?
    ensures |CheckElements(file, es, true).value| == DeprecatedElements(es)
    ensures forall x :: x in CheckElements(file, es, true).value ==> x.DeprecatedTag?
    decreases |es|
  {
    if |es| > 0 {
      DeprecatedCount(file, es[1..]);
    }
  }

  /** How many elements carry a deprecated key. */
  function DeprecatedElements(es: seq<Element>): nat
    decreases |es|
  {
    if |es| == 0 then 0
    else (if TagKey(es[0].tag).Success? && TagKey(es[0].tag).value in DeprecatedTags then 1 else 0)
         + DeprecatedElements(es[1..])
  }

  /** A tag under a namespace URI keys as "<uri>:<name>", so `apex:include` written with the Visualforce
      namespace URI (any URI of 12 or more characters) is not a deprecated key. */
  lemma NamespacedTagNotDeprecated(file: string, uri: string, name: string, attrs: set<string>, children: seq<Element>)
    requires '}' !in uri && '}' !in name && |uri| >= 12
    ensures ElementDeprecated(file, Element("{" + uri + "}" + name, attrs, children)) == Success([])
  {
    TagKeyNamespaced(uri, name);
    NamespacedKeyNotDeprecated(uri, name);
  }

  lemma NamespacedKeyNotDeprecated(uri: string, name: string)
    requires |uri| >= 12
    ensures uri + ":" + name !in DeprecatedTags
  {
    var key := uri + ":" + name;
    assert |key| > 12;
    assert key != "apex:include" && key != "apex:detail";
    assert key != "apex:relatedList" by {
      assert key[|uri|] == ':';
      if |key| == 16 { assert "apex:relatedList"[|uri|] != ':'; }
    }
  }

  /** The regex matches of the two XSS patterns and of nothing else: the regex engine is not modelled. */
  datatype XssMatches = XssMatches(unescapedOutput: bool, outputTextValue: bool)

  const UnescapedOutputMessage: string := "Potentially unescaped output - use {!$HtmlEncode(var)}"
  const OutputTextMessage: string := "Use escape=\"false\" carefully"

  /** The page lacks the design system: no "slds" in the lower-cased text, and an `<apex:page` tag. */
  predicate MissingSldsIn(content: string) {
    !Contains(Lower(content), "slds") && Contains(content, "<apex:page")
  }

  /** `_check_common_patterns`: the XSS warnings only when verbose, then the SLDS info. */
  function CommonPatterns(file: string, content: string, xss: XssMatches, verbose: bool): (r: seq<VfIssue>)
    ensures !verbose ==> forall x :: x in r ==> !x.PotentialXss?
    ensures (exists x :: x in r && x.MissingSlds?) <==> MissingSldsIn(content)
    ensures |r| <= 3
  {
    var xs := (if verbose && xss.unescapedOutput then [PotentialXss(file, UnescapedOutputMessage)] else [])
              + (if verbose && xss.outputTextValue then [PotentialXss(file, OutputTextMessage)] else []);
    var slds := if MissingSldsIn(content) then [MissingSlds(file)] else [];
    assert forall x :: x in xs ==> x.PotentialXss?;
    assert MissingSldsIn(content) ==> (xs + slds)[|xs|] == MissingSlds(file);
    xs + slds
  }

  /** The result of the safe XML parser on a file's text: a tree, an `ET.ParseError`, or any other
      exception the parser raises (defusedxml, called with its defaults, refusing an entity declaration
      or an external reference; a plain DOCTYPE parses), which the file check does not catch. */
  datatype ParseOutcome = Parsed(root: Element) | ParseError(message: string) | ParserRaised(message: string)

  /** One candidate file, with what the file system and the parser report about it. `inSourceDir` is
      the result of the resolved-path containment check; `size` is `None` when the file cannot be
      stat'ed; `content` is `None` when it is not valid UTF-8. */
  datatype VfFile = VfFile(path: string, inSourceDir: bool, size: Option<int>, content: Option<string>,
                           parsed: ParseOutcome, xss: XssMatches)

  /** Files strictly larger than 10 MiB are not read. */
  const MaxFileSize: int := 10 * 1024 * 1024

  const SyntaxMessagePrefix: string := "Invalid XML syntax: "

  /** The file is inside the source directory, small enough, and decoded: the parser sees its text. */
  predicate Readable(f: VfFile) {
    f.inSourceDir && f.size.Some? && f.size.value <= MaxFileSize && f.content.Some?
  }

  /** `_validate_file(file_path)`: the issues one file adds, gated in the source's order. */
  function ValidateFile(f: VfFile, verbose: bool): (r: Result<seq<VfIssue>, string>)
    ensures !f.inSourceDir ==> r == Success([])
    ensures f.inSourceDir && f.size.Some? && f.size.value > MaxFileSize ==> r == Success([FileTooLarge(f.path, f.size.value)])
    ensures r.Success? && f.parsed.ParseError? ==> |r.value| <= 1
    ensures f.inSourceDir && f.size.Some? && f.size.value <= MaxFileSize && f.content.Some? && f.parsed.ParseError?
            ==> r.Success? && |r.value| == 1 && r.value[0].SyntaxError?
                && |r.value[0].message| <= |SyntaxMessagePrefix| + 100
    ensures r.Failure? ==> Readable(f) && (f.parsed.Parsed? || f.parsed.ParserRaised?)
    ensures Readable(f) && f.parsed.ParserRaised? ==> r == Failure(f.parsed.message)
    ensures Readable(f) && f.parsed.Parsed? ==>
              (r.Failure? <==> exists e :: e in Iter(f.parsed.root) && TagKey(e.tag).Failure?)
    ensures Readable(f) && f.parsed.Parsed? && r.Success? ==>
              r.value == CheckElements(f.path, Iter(f.parsed.root), false).value
                         + CheckElements(f.path, Iter(f.parsed.root), true).value
                         + CommonPatterns(f.path, f.content.value, f.xss, verbose)
  {
    if !f.inSourceDir then Success([])
    else if f.size.None? then Success([])
    else if f.size.value > MaxFileSize then Success([FileTooLarge(f.path, f.size.value)])
    else if f.content.None? then Success([])
    else match f.parsed
      case ParseError(m) => Success([SyntaxError(f.path, SyntaxMessagePrefix + Take(m, 100))])
      case ParserRaised(m) => Failure(m)
      case Parsed(root) =>
        var elems := Iter(root);
        var unsupported :- CheckElements(f.path, elems, false);
        // The deprecated-tag pass fails on the same tags as the attribute pass, which failed first.
        var deprecated := CheckElements(f.path, elems, true);
        Success(unsupported + deprecated.value + CommonPatterns(f.path, f.content.value, f.xss, verbose))
  }

  /** On a page that parses, the issues are the unsupported-attribute errors, then one deprecated-tag
      warning per deprecated element, then the pattern checks, whose SLDS info appears exactly when
      the page lacks the design system. */
  lemma ParsedPageIssues(f: VfFile, verbose: bool)
    requires Readable(f) && f.parsed.Parsed? && ValidateFile(f, verbose).Success?
    ensures var r := ValidateFile(f, verbose).value;
            var u := CheckElements(f.path, Iter(f.parsed.root), false).value;
            var d := CheckElements(f.path, Iter(f.parsed.root), true).value;
            && r == u + d + CommonPatterns(f.path, f.content.value, f.xss, verbose)
            && (forall x :: x in u ==> x.UnsupportedAttribute?)
            && (forall x :: x in d ==> x.DeprecatedTag?)
            && |d| == DeprecatedElements(Iter(f.parsed.root))
            && ((exists x :: x in r && x.MissingSlds?) <==> MissingSldsIn(f.content.value))
  {
    var elems := Iter(f.parsed.root);
    CheckedElementsKinds(f.path, elems, false);
    CheckedElementsKinds(f.path, elems, true);
    DeprecatedCount(f.path, elems);
  }

  const UndefinedNameMessage: string := "name 'SecurityWarning' is not defined"

  /** The parser the script falls back to without defusedxml, as written: its `warnings.warn` call
      names `SecurityWarning`, which is neither a Python builtin nor defined in the script, so
      evaluating the call raises NameError before the text is parsed. `plain` is what ElementTree
      would have returned. */
  function FallbackParse(plain: ParseOutcome): (r: ParseOutcome)
    ensures r.ParserRaised?
  {
    ParserRaised(UndefinedNameMessage)
  }

  /** As written, without defusedxml every readable page ends the run with exit 2, whatever it holds. */
  lemma FallbackEndsRun(f: VfFile, plain: ParseOutcome, verbose: bool)
    requires Readable(f)
    ensures var g := f.(parsed := FallbackParse(plain));
            ValidateFile(g, verbose).Failure? && ExitCode(ValidateAll([g], verbose)) == 2
  {
    var g := f.(parsed := FallbackParse(plain));
    assert g in [g];
  }

  /** The fallback with a warning category that exists (`UserWarning`): the warning is only reported
      and ElementTree's result comes back. */
  function FixedFallbackParse(plain: ParseOutcome): ParseOutcome {
    plain
  }

  /** With the fixed fallback, a readable page is checked just as the plain parser's result
      dictates: a page that parses fails only on a tag that cannot be split, and one that does not
      parse is one syntax error. */
  lemma FixedFallbackChecksPage(f: VfFile, plain: ParseOutcome, verbose: bool)
    requires Readable(f) && !plain.ParserRaised?
    ensures var r := ValidateFile(f.(parsed := FixedFallbackParse(plain)), verbose);
            && (plain.Parsed? ==> (r.Failure? <==> exists e :: e in Iter(plain.root) && TagKey(e.tag).Failure?))
            && (plain.ParseError? ==> r.Success? && |r.value| == 1 && r.value[0].SyntaxError?)
  {
  }

  /** `VFValidator.validate(source_dir)` over the `.page` and `.component` files found: the issues and
      exit code, or the failure that ends the run. */
  function ValidateAll(files: seq<VfFile>, verbose: bool): (r: Result<seq<VfIssue>, string>)
    ensures r.Failure? <==> exists f :: f in files && ValidateFile(f, verbose).Failure?
    decreases |files|
  {
    if |files| == 0 then Success([])
    else
      var prefix := files[..|files| - 1];
      var last := files[|files| - 1];
      assert forall f :: f in files <==> f in prefix || f == last;
      var before :- ValidateAll(prefix, verbose);
      var here :- ValidateFile(last, verbose);
      Success(before + here)
  }

  /** No XSS warning is ever raised without `--verbose`. */
  lemma {:induction false} QuietHasNoXss(files: seq<VfFile>)
    requires ValidateAll(files, false).Success?
    ensures forall x :: x in ValidateAll(files, false).value ==> !x.PotentialXss?
    decreases |files|
  {
    if |files| > 0 {
      var prefix := files[..|files| - 1];
      var last := files[|files| - 1];
      QuietHasNoXss(prefix);
      QuietFileHasNoXss(last);
    }
  }

  lemma QuietFileHasNoXss(f: VfFile)
    requires ValidateFile(f, false).Success?
    ensures forall x :: x in ValidateFile(f, false).value ==> !x.PotentialXss?
  {
    if f.inSourceDir && f.size.Some? && f.size.value <= MaxFileSize && f.content.Some? && f.parsed.Parsed? {
      var elems := Iter(f.parsed.root);
      CheckedElementsKinds(f.path, elems, false);
      CheckedElementsKinds(f.path, elems, true);
    }
  }

  lemma {:induction false} CheckedElementsKinds(file: string, es: seq<Element>, deprecated: bool)
    requires CheckElements(file, es, deprecated).Success?
    ensures forall x :: x in CheckElements(file, es, deprecated).value
              ==> (if deprecated then x.DeprecatedTag? else x.UnsupportedAttribute?)
    decreases |es|
  {
    if |es| > 0 {
      CheckedElementsKinds(file, es[1..], deprecated);
      if !deprecated {
        var key := TagKey(es[0].tag).value;
        AttrIssuesSpec(file, key, es[0].attrs, ListedAttrs(key, UnsupportedRules));
      }
    }
  }

  /** The exit code of `main`: 2 when the run fails, else 1 iff any issue, infos included. */
  function ExitCode(r: Result<seq<VfIssue>, string>): (code: int)
    ensures r.Failure? ==> code == 2
    ensures r.Success? ==> (code == 1 <==> |r.value| > 0) && (code == 0 <==> |r.value| == 0)
  {
    if r.Failure? then 2 else if |r.value| > 0 then 1 else 0
  }

  function OfSeverity(issues: seq<VfIssue>, s: Severity): (r: seq<VfIssue>)
    ensures forall x :: x in r <==> x in issues && x.Severity() == s
    decreases |issues|
  {
    if |issues| == 0 then []
    else (if issues[0].Severity() == s then [issues[0]] else []) + OfSeverity(issues[1..], s)
  }

  /** Errors, warnings and infos partition the issues. */
  lemma {:induction false} SeverityPartition(issues: seq<VfIssue>)
    ensures |OfSeverity(issues, Error)| + |OfSeverity(issues, Warning)| + |OfSeverity(issues, Info)| == |issues|
    decreases |issues|
  {
    if |issues| > 0 {
      SeverityPartition(issues[1..]);
    }
  }

  /** The attributes listed for `apex:page`: only the first rule applies. */
  lemma PageListedAttrs()
    ensures ListedAttrs("apex:page", UnsupportedRules) == ["dir", "xml:lang", "lang"]
  {
    var key := "apex:page";
    assert RuleApplies(key, "apex:page") by { assert key[0..9] == "apex:page"; }
    assert !RuleApplies(key, "apex:form") by {
      assert key[5] != "apex:form"[5];
      NotContainsShort(key[1..], "apex:form");
    }
    assert ListedAttrs(key, UnsupportedRules[1..]) == [];
  }

  lemma AttrIssuesCons(file: string, key: string, attrs: set<string>, a: string, rest: seq<string>)
    ensures AttrIssues(file, key, attrs, [a] + rest)
            == (if a in attrs then [UnsupportedAttribute(file, key, a, FixFor(a))] else []) + AttrIssues(file, key, attrs, rest)
  {
    assert ([a] + rest)[0] == a;
    assert ([a] + rest)[1..] == rest;
  }

  lemma PageKey()
    ensures TagKey("apex:page") == Success("apex:page")
  {
    var key := "apex:page";
    assert forall i :: 0 <= i < |key| ==> key[i] != '}';
  }

  lemma PageUnsupported(file: string, attrs: set<string>)
    ensures ElementUnsupported(file, Element("apex:page", attrs, []))
            == Success(AttrIssues(file, "apex:page", attrs, ["dir", "xml:lang", "lang"]))
  {
    PageKey();
    PageListedAttrs();
  }

  /** Three listed attributes give at most three issues, in list order. */
  lemma AttrIssuesThree(file: string, key: string, attrs: set<string>, a: string, b: string, c: string)
    ensures AttrIssues(file, key, attrs, [a, b, c])
            == (if a in attrs then [UnsupportedAttribute(file, key, a, FixFor(a))] else [])
               + (if b in attrs then [UnsupportedAttribute(file, key, b, FixFor(b))] else [])
               + (if c in attrs then [UnsupportedAttribute(file, key, c, FixFor(c))] else [])
  {
    AttrIssuesCons(file, key, attrs, c, []);
    AttrIssuesCons(file, key, attrs, b, [c]);
    AttrIssuesCons(file, key, attrs, a, [b, c]);
    assert [c] + [] == [c];
    assert [b] + [c] == [b, c];
    assert [a] + [b, c] == [a, b, c];
  }

  lemma PageAttrIssues(file: string, attrs: set<string>)
    ensures AttrIssues(file, "apex:page", attrs, ["dir", "xml:lang", "lang"])
            == (if "dir" in attrs then [UnsupportedAttribute(file, "apex:page", "dir", DirSuggestion)] else [])
               + (if "xml:lang" in attrs then [UnsupportedAttribute(file, "apex:page", "xml:lang", "")] else [])
               + (if "lang" in attrs then [UnsupportedAttribute(file, "apex:page", "lang", "")] else [])
  {
    assert FixFor("xml:lang") == "" by { assert |"xml:lang"| != |"dir"|; }
    assert FixFor("lang") == "" by { assert |"lang"| != |"dir"|; }
    AttrIssuesThree(file, "apex:page", attrs, "dir", "xml:lang", "lang");
  }

  /** On `apex:page`, each of `dir`, `xml:lang` and `lang` the element carries is one error, in
      table order; only `dir` has a fix. */
  lemma PageAttributes(file: string, attrs: set<string>)
    ensures ElementUnsupported(file, Element("apex:page", attrs, []))
            == Success((if "dir" in attrs then [UnsupportedAttribute(file, "apex:page", "dir", DirSuggestion)] else [])
                       + (if "xml:lang" in attrs then [UnsupportedAttribute(file, "apex:page", "xml:lang", "")] else [])
                       + (if "lang" in attrs then [UnsupportedAttribute(file, "apex:page", "lang", "")] else []))
  {
    PageUnsupported(file, attrs);
    PageAttrIssues(file, attrs);
  }

  /** A readable file that does not parse is one syntax error, and the run exits 1. */
  lemma SyntaxErrorExits1(f: VfFile, verbose: bool)
    requires f.inSourceDir && f.size.Some? && f.size.value <= MaxFileSize && f.content.Some? && f.parsed.ParseError?
    ensures ValidateAll([f], verbose) == Success([SyntaxError(f.path, SyntaxMessagePrefix + Take(f.parsed.message, 100))])
    ensures ExitCode(ValidateAll([f], verbose)) == 1
  {
    assert [f][..0] == [];
    var none: seq<VfIssue> := [];
    assert none + [SyntaxError(f.path, SyntaxMessagePrefix + Take(f.parsed.message, 100))]
           == [SyntaxError(f.path, SyntaxMessagePrefix + Take(f.parsed.message, 100))];
  }
}
