/**
 `listReferences` and `listAllReferences`: the translation keys a theme's
 templates refer to, found with the translation-filter pattern, with the
 plural form `.other` appended when the filter is given a `count:` argument.
 */
module TemplateReferences {
  import opened Optional
  import opened Text
  import opened GlobalExec
  import opened Scanner

  /** `{ file, key, index }`: a reference to a translation key at an offset of a template file. */
  datatype Reference = Reference(file: string, key: string, index: nat)

  /** `args && args.split(/\s+/).indexOf("count:") >= 0`: a non-empty argument capture with a `count:` piece. */
  predicate CountsPlural(args: Option<string>) {
    args.Some? && args.value != "" && "count:" in SplitWhitespace(args.value)
  }

  /** The key a match refers to: the quoted key, with `.other` appended when the filter counts. */
  function ReferenceKey(key: string, args: Option<string>): string {
    if CountsPlural(args) then key + ".other" else key
  }

  /**
   A reference key is the quoted key plus `.other` exactly when the
   arguments hold `count:` as a whole whitespace-separated word; otherwise it
   is the quoted key unchanged.
   */
  lemma ReferenceKeyIff(key: string, args: Option<string>)
    ensures ReferenceKey(key, args) ==
      if args.Some? && HasToken(args.value, "count:") then key + ".other" else key
  {
    if args.Some? {
      assert forall k :: 0 <= k < |"count:"| ==> !IsWhitespace("count:"[k]);
      SplitWhitespaceToken(args.value, "count:");
    }
  }

  /** The reference a match in `file` is recorded as. */
  function ToReference(file: string, m: RawMatch): Reference {
    Reference(file, ReferenceKey(m.groups.key, m.groups.args), m.index)
  }

  /** The callback the `exec` loop runs on each match of `file`. */
  function Recorder(file: string): RawMatch -> Reference {
    (m: RawMatch) => ToReference(file, m)
  }

  /** The references of one template, in the order the matcher finds them. */
  function References(file: string, content: string): seq<Reference> {
    MapHits(Recorder(file), Scan(content))
  }

  /**
   A template's references, one per match and in match order: each carries
   the file and the offset of its match, and its key is the matched key plus
   `.other` exactly when the arguments hold the word `count:`.
   */
  lemma ReferencesKeys(file: string, content: string)
    ensures |References(file, content)| == |Scan(content)|
    ensures forall k :: 0 <= k < |Scan(content)| ==>
      var m := Scan(content)[k];
      var r := References(file, content)[k];
      && r.file == file
      && r.index == m.index
      && r.key == if m.groups.args.Some? && HasToken(m.groups.args.value, "count:")
                  then m.groups.key + ".other" else m.groups.key
  {
    var refs := References(file, content);
    var ms := Scan(content);
    forall k | 0 <= k < |ms|
      ensures refs[k] == ToReference(file, ms[k])
      ensures refs[k].key == if ms[k].groups.args.Some? && HasToken(ms[k].groups.args.value, "count:")
                             then ms[k].groups.key + ".other" else ms[k].groups.key
    {
      ReferenceKeyIff(ms[k].groups.key, ms[k].groups.args);
    }
  }

  /** Every reference's offset is that of a `{{` in the template. */
  lemma ReferenceBraces(file: string, content: string, k: nat)
    requires k < |References(file, content)|
    ensures var i := References(file, content)[k].index;
      i + 1 < |content| && content[i] == '{' && content[i + 1] == '{'
  {
    assert References(file, content)[k] == ToReference(file, Scan(content)[k]);
    ScanBraces(content, k);
  }

  /** Reference offsets strictly increase. */
  lemma ReferencesIncreasing(file: string, content: string, k: nat, l: nat)
    requires k < l < |References(file, content)|
    ensures References(file, content)[k].index < References(file, content)[l].index
  {
    var refs := References(file, content);
    assert refs[k] == ToReference(file, Scan(content)[k]) && refs[l] == ToReference(file, Scan(content)[l]);
    ScanIncreasing(content, k, l);
  }

  /**
   `listReferences(file)` once the file's content has been read: a fresh
   matcher runs `exec` until it fails, recording one reference per match.
   */
  method ListReferences(file: string, content: string) returns (refs: seq<Reference>)
    ensures refs == References(file, content)
    ensures |refs| == |Scan(content)|
    ensures forall k :: 0 <= k < |refs| ==> refs[k].file == file && refs[k].index == Scan(content)[k].index
    ensures forall k :: 0 <= k < |refs| ==>
      refs[k].index + 1 < |content| && content[refs[k].index] == '{' && content[refs[k].index + 1] == '{'
    ensures forall k, l :: 0 <= k < l < |refs| ==> refs[k].index < refs[l].index
  {
    PatternAnchored(content);
    refs := ExecEach(Pattern(content), |content|, Recorder(file));
    ReferencesKeys(file, content);
    forall k | 0 <= k < |refs|
      ensures refs[k].index + 1 < |content| && content[refs[k].index] == '{' && content[refs[k].index + 1] == '{'
    {
      ReferenceBraces(file, content, k);
    }
    forall k, l | 0 <= k < l < |refs|
      ensures refs[k].index < refs[l].index
    {
      ReferencesIncreasing(file, content, k, l);
    }
  }

  /** A template file as read from disk: its path and its text. */
  datatype Template = Template(path: string, content: string)

  /** `listAllReferences()`: the references of every template, file after file, each file's in order. */
  function AllReferences(templates: seq<Template>): (refs: seq<Reference>)
    ensures forall r :: r in refs <==>
      exists i :: 0 <= i < |templates| && r in References(templates[i].path, templates[i].content)
    decreases |templates|
  {
    if |templates| == 0 then []
    else
      var rest := AllReferences(templates[1..]);
      assert forall i :: 1 <= i < |templates| ==> templates[i] == templates[1..][i - 1];
      References(templates[0].path, templates[0].content) + rest
  }

  /** The references of two runs of templates are those of the first run, then those of the second. */
  lemma {:induction false} AllReferencesAppend(a: seq<Template>, b: seq<Template>)
    ensures AllReferences(a + b) == AllReferences(a) + AllReferences(b)
    decreases |a|
  {
    if |a| == 0 {
      assert a + b == b;
    } else {
      assert (a + b)[0] == a[0] && (a + b)[1..] == a[1..] + b;
      AllReferencesAppend(a[1..], b);
    }
  }

  /** A single template has exactly its own references, once each and in match order. */
  lemma AllReferencesOne(t: Template)
    ensures AllReferences([t]) == References(t.path, t.content)
  {
    assert [t][1..] == [];
  }
}
