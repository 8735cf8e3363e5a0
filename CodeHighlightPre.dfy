/**
 * The Markdown plugin that passes a fenced code block's line-highlight range to
 * the highlighter: a code block whose meta string is `{1,3-5}` gets the language
 * `js[data-line=1,3-5]`.
 */
module CodeHighlightPre {
  import opened Wrappers
  import opened Text

  predicate IsBrace(c: char) {
    c == '{' || c == '}'
  }

  /**
   * `meta.replace(/[{}]/g, "")`: every brace removed (the pattern is global),
   * every other character kept, in order and with its multiplicity.
   */
  function RemoveBraces(s: string): (r: string)
    ensures forall i :: 0 <= i < |r| ==> !IsBrace(r[i])
    ensures |r| == |s| - CountChar(s, '{') - CountChar(s, '}')
    ensures forall c :: !IsBrace(c) ==> CountChar(r, c) == CountChar(s, c)
  {
    if s == [] then ""
    else if IsBrace(s[0]) then RemoveBraces(s[1..])
    else [s[0]] + RemoveBraces(s[1..])
  }

  /** A string without braces is left as it is, so removing them twice is removing them once. */
  lemma {:induction false} RemoveBracesFixesBraceless(s: string)
    requires forall i :: 0 <= i < |s| ==> !IsBrace(s[i])
    ensures RemoveBraces(s) == s
  {
    if s != [] {
      RemoveBracesFixesBraceless(s[1..]);
      assert [s[0]] + s[1..] == s;
    }
  }

  lemma RemoveBracesIdempotent(s: string)
    ensures RemoveBraces(RemoveBraces(s)) == RemoveBraces(s)
  {
    RemoveBracesFixesBraceless(RemoveBraces(s));
  }

  /** `${node.lang}`: a block without a language has `lang` null, which renders as "null". */
  function LangText(lang: Option<string>): (t: string)
    ensures lang.Some? ==> t == lang.value
    ensures lang.None? ==> t == "null"
  {
    match lang
    case Some(l) => l
    case None => "null"
  }

  /** A JavaScript value is falsy as `meta` when it is absent or the empty string. */
  predicate IsTruthy(meta: Option<string>) {
    meta.Some? && meta.value != ""
  }

  const RangeOpen := "[data-line="

  /** The new language: the old one followed by the bracketed, brace-free range. */
  function HighlightedLang(lang: Option<string>, meta: string): string {
    LangText(lang) + RangeOpen + RemoveBraces(meta) + "]"
  }

  /**
   * The new language can be read back: it starts with the old language text and
   * `[data-line=`, ends with `]`, and in between holds the meta string without
   * its braces, which contains no brace.
   */
  lemma HighlightedLangReadsBack(lang: Option<string>, meta: string)
    ensures var h := HighlightedLang(lang, meta);
      var n := |LangText(lang)| + |RangeOpen|;
      && n < |h|
      && h[..|LangText(lang)|] == LangText(lang)
      && h[|LangText(lang)|..n] == RangeOpen
      && h[n..|h| - 1] == RemoveBraces(meta)
      && h[|h| - 1] == ']'
      && forall i :: n <= i < |h| - 1 ==> !IsBrace(h[i])
  {
    var a, b, c := LangText(lang), RangeOpen, RemoveBraces(meta);
    var h := a + b + c + "]";
    var n := |a| + |b|;
    assert h[..|a|] == a;
    assert h[|a|..n] == b;
    assert h[n..|h| - 1] == c;
    forall i | n <= i < |h| - 1 ensures !IsBrace(h[i]) {
      assert h[i] == c[i - n];
    }
  }

  /** A node of the Markdown tree that the visitor may change in place. */
  class CodeNode {
    var nodeType: string
    var lang: Option<string>
    var meta: Option<string>
    var value: string

    constructor (nodeType: string, lang: Option<string>, meta: Option<string>, value: string)
      ensures this.nodeType == nodeType && this.lang == lang && this.meta == meta && this.value == value
    {
      this.nodeType := nodeType;
      this.lang := lang;
      this.meta := meta;
      this.value := value;
    }
  }

  /**
   * The `visit(tree, "code", ...)` callback for one node: only code nodes are
   * visited; with a falsy meta nothing changes; otherwise only `lang` is
   * assigned, to the highlighted language.
   */
  method VisitCode(node: CodeNode)
    modifies node
    ensures node.nodeType == old(node.nodeType) && node.meta == old(node.meta) && node.value == old(node.value)
    ensures old(node.nodeType) != "code" || !IsTruthy(old(node.meta)) ==> node.lang == old(node.lang)
    ensures old(node.nodeType) == "code" && IsTruthy(old(node.meta)) ==>
      node.lang == Some(HighlightedLang(old(node.lang), old(node.meta.value)))
  {
    if node.nodeType != "code" {
      return;
    }
    if !IsTruthy(node.meta) {
      return;
    }
    node.lang := Some(LangText(node.lang) + RangeOpen + RemoveBraces(node.meta.value) + "]");
  }
}
