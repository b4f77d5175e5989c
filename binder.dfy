/**
 The parameter binder of the named-query service: it rewrites a query
 template's command text, one parameter after another, replacing every
 `@<name>` placeholder with the rendered value of that parameter.

 The parameter dictionary is a sequence of entries in the order in which the
 dictionary enumerates them. A value's runtime shape decides what happens: a
 sequence of strings is rendered as literals, a sequence of `Uri`s as IRIs,
 `null` as the keyword `undef`, and any other shape is skipped.
 */
module NamedQuery {
  import opened Wrappers
  import opened Text
  import opened SparqlFormatting

  /** The runtime shape of a parameter's value, as the binder tells them apart. */
  datatype ParamValue =
    | Literals(values: seq<string>)  // the value is an IEnumerable<string>
    | Uris(uris: seq<string>)        // the value is an IEnumerable<Uri>
    | Null                           // the value is null
    | Other                          // any other enumerable of objects

  /** One dictionary entry: the parameter's name and its value. */
  type Entry = (string, ParamValue)

  /** The placeholder the template uses for parameter `key`. */
  function Placeholder(key: string): string {
    "@" + key
  }

  /** The text an entry's placeholder is replaced with, or None when the entry is skipped. */
  function Substitution(fmt: Formatter, value: ParamValue): (r: Option<string>)
    ensures r.None? <==> value.Other?
    ensures value.Null? ==> r == Some(Undef)
  {
    match value
    case Literals(values) => Some(RenderLiterals(fmt, values))
    case Uris(uris) => Some(RenderUris(fmt, uris))
    case Null => Some(Undef)
    case Other => None
  }

  /** The command text after one entry has been applied to `text`. */
  function ApplyEntry(text: string, entry: Entry, fmt: Formatter): (r: string)
    ensures entry.1.Other? ==> r == text
    ensures |text| < |Placeholder(entry.0)| ==> r == text
  {
    match Substitution(fmt, entry.1)
    case None => text
    case Some(rep) => ReplaceAll(text, Placeholder(entry.0), rep)
  }

  /** The command text after `entries` have been applied to `text`, first to last. */
  function ApplyAll(text: string, entries: seq<Entry>, fmt: Formatter): (r: string)
    ensures entries == [] ==> r == text
    ensures |entries| == 1 ==> r == ApplyEntry(text, entries[0], fmt)
    decreases |entries|
  {
    if entries == [] then text
    else ApplyEntry(ApplyAll(text, entries[..|entries| - 1], fmt), entries[|entries| - 1], fmt)
  }

  /** The query text the binder returns for `template` and a possibly null dictionary. */
  function Bind(template: string, parameters: Option<seq<Entry>>, fmt: Formatter): (r: string)
    ensures parameters.None? || parameters == Some([]) ==> r == template
  {
    match parameters
    case None => template
    case Some(entries) => ApplyAll(template, entries, fmt)
  }

  /**
   The parameterized query string the binder rewrites in place. Only its
   command text is modelled; the binder sets no library-managed parameters,
   namespaces or base IRI on it, so its string form is its command text.
   */
  class ParameterizedString {
    var commandText: string

    constructor (command: string)
      ensures commandText == command
    {
      commandText := command;
    }

    /** The string form of the query: its command text. */
    function ToString(): (s: string)
      reads this
      ensures s == commandText
    {
      commandText
    }
  }

  /** Replaces every `@parameter` with the formatted literals, space-separated. */
  method SetLiterals(q: ParameterizedString, parameter: string, values: seq<string>, fmt: Formatter)
    modifies q
    ensures q.commandText == ReplaceAll(old(q.commandText), Placeholder(parameter), RenderLiterals(fmt, values))
  {
    q.commandText := ReplaceAll(q.commandText, Placeholder(parameter), RenderLiterals(fmt, values));
  }

  /** Replaces every `@parameter` with the URIs, each in `<` `>`, space-separated. */
  method SetUris(q: ParameterizedString, parameter: string, uris: seq<string>, fmt: Formatter)
    modifies q
    ensures q.commandText == ReplaceAll(old(q.commandText), Placeholder(parameter), RenderUris(fmt, uris))
  {
    q.commandText := ReplaceAll(q.commandText, Placeholder(parameter), RenderUris(fmt, uris));
  }

  /** Replaces every `@parameter` with `undef`. */
  method SetUndef(q: ParameterizedString, parameter: string)
    modifies q
    ensures q.commandText == ReplaceAll(old(q.commandText), Placeholder(parameter), Undef)
  {
    q.commandText := ReplaceAll(q.commandText, Placeholder(parameter), Undef);
  }

  /**
   Applies the dictionary's entries to `q` in enumeration order and returns the
   resulting query text; a null dictionary leaves the text as it was.
   */
  method SetQueryParameters(q: ParameterizedString, parameters: Option<seq<Entry>>, fmt: Formatter)
    returns (query: string)
    modifies q
    ensures query == q.commandText == Bind(old(q.commandText), parameters, fmt)
    ensures parameters.None? ==> query == old(q.commandText)
  {
    if parameters.Some? {
      var entries := parameters.value;
      for i := 0 to |entries|
        invariant q.commandText == ApplyAll(old(q.commandText), entries[..i], fmt)
      {
        assert entries[..i + 1][..i] == entries[..i];
        var (key, value) := entries[i];
        match value
        case Literals(values) => SetLiterals(q, key, values, fmt);
        case Uris(uris) => SetUris(q, key, uris, fmt);
        case Null => SetUndef(q, key);
        case Other =>
      }
      assert entries[..|entries|] == entries;
    }
    query := q.ToString();
  }

  /**
   The query text for a template and a dictionary: wraps the template text in a
   fresh parameterized string and binds the parameters to it. The template is
   given as text; where it is loaded from is not part of this model.
   */
  method QueryStringFromTemplate(template: string, parameters: Option<seq<Entry>>, fmt: Formatter)
    returns (query: string)
    ensures query == Bind(template, parameters, fmt)
    ensures parameters.None? ==> query == template
  {
    var q := new ParameterizedString(template);
    query := SetQueryParameters(q, parameters, fmt);
  }

  // ---------------------------------------------------------------------------
  // What each kind of entry does
  // ---------------------------------------------------------------------------

  /** Entries of any other shape leave the command text as it is: there is no else branch. */
  lemma {:induction false} OtherEntryIgnored(text: string, fmt: Formatter, entries: seq<Entry>)
    requires forall i :: 0 <= i < |entries| ==> entries[i].1 == Other
    ensures ApplyAll(text, entries, fmt) == text
    decreases |entries|
  {
    if entries != [] {
      OtherEntryIgnored(text, fmt, entries[..|entries| - 1]);
    }
  }

  /**
   A null entry for `key`: the text keeps every piece between the greedy
   occurrences of `@key`, in order, and each of those occurrences now reads
   `undef`. The last conjunct is about the input: no occurrence of `@key`
   starts inside a piece, so the occurrences rewritten are exactly the greedy
   ones. It says nothing about the result, which may contain `@key` again
   (`UndefMayLeaveLookalike`).
   */
  lemma UndefEntryEffect(text: string, key: string, fmt: Formatter)
    ensures var segs := SplitOn(text, Placeholder(key));
      ApplyEntry(text, (key, Null), fmt) == Join(Undef, segs) &&
      Join(Placeholder(key), segs) == text &&
      forall j: nat :: j < |segs| ==> NoEarlyMatch(segs[j], Follower(segs, Placeholder(key), j), Placeholder(key))
  {
    ReplaceAllIsJoinOfSplit(text, Placeholder(key), Undef);
  }

  /**
   The result of a null entry may still contain `@key`: a character before a
   placeholder can combine with the inserted `undef` into a new occurrence.
   */
  lemma UndefMayLeaveLookalike(fmt: Formatter)
    ensures ApplyEntry("@@u", ("u", Null), fmt) == "@undef"
    ensures Contains("@undef", Placeholder("u"))
  {
    var pat := Placeholder("u");
    var s := "@@u";
    assert s[..2][1] != pat[1];
    assert s[1..] == pat + "";
    ReplaceAllFirstAfter("", "", pat, Undef);
    assert ReplaceAll(pat, pat, Undef) == Undef;
    assert ReplaceAll(s, pat, Undef) == "@" + ReplaceAll(pat, pat, Undef);
    assert pat == "@u";
    assert "@undef"[..2] == pat;
    assert OccursAt("@undef", pat, 0);
  }

  /**
   A string-sequence entry: each greedy occurrence of `@key` becomes the
   formatted literals joined by single spaces; the rest of the text is kept.
   */
  lemma LiteralsEntryEffect(text: string, key: string, values: seq<string>, fmt: Formatter)
    ensures ApplyEntry(text, (key, Literals(values)), fmt)
         == Join(Join(" ", FormattedLiterals(fmt, values)), SplitOn(text, Placeholder(key)))
  {
    ReplaceAllIsJoinOfSplit(text, Placeholder(key), RenderLiterals(fmt, values));
  }

  /**
   An empty string sequence deletes the placeholder: the kept pieces are
   concatenated, and the text shrinks by the placeholder's length once per
   occurrence.
   */
  lemma EmptyLiteralsDeletePlaceholder(text: string, key: string, fmt: Formatter)
    ensures var r := ApplyEntry(text, (key, Literals([])), fmt);
      r == Join("", SplitOn(text, Placeholder(key))) &&
      |r| == |text| - Occurrences(text, Placeholder(key)) * |Placeholder(key)|
  {
    assert FormattedLiterals(fmt, []) == [];
    assert RenderLiterals(fmt, []) == "";
    ReplaceAllDeletes(text, Placeholder(key));
  }

  /**
   A `Uri`-sequence entry: each greedy occurrence of `@key` becomes the URIs,
   each enclosed in `<` and `>`, joined by single spaces; the rest of the text
   is kept.
   */
  lemma UrisEntryEffect(text: string, key: string, uris: seq<string>, fmt: Formatter)
    ensures ApplyEntry(text, (key, Uris(uris)), fmt)
         == Join(Join(" ", FormattedUris(fmt, uris)), SplitOn(text, Placeholder(key)))
    ensures forall i :: 0 <= i < |uris| ==> FormattedUris(fmt, uris)[i] == "<" + fmt.escapeIri(uris[i]) + ">"
  {
    ReplaceAllIsJoinOfSplit(text, Placeholder(key), RenderUris(fmt, uris));
  }

  // ---------------------------------------------------------------------------
  // Sequencing, identity and order
  // ---------------------------------------------------------------------------

  /** Entries act one after another on the text the earlier ones produced. */
  lemma {:induction false} ApplyAllAppend(text: string, first: seq<Entry>, second: seq<Entry>, fmt: Formatter)
    ensures ApplyAll(text, first + second, fmt) == ApplyAll(ApplyAll(text, first, fmt), second, fmt)
    decreases |second|
  {
    if second == [] {
      assert first + second == first;
    } else {
      var all := first + second;
      var n := |second| - 1;
      assert all[..|all| - 1] == first + second[..n];
      assert all[|all| - 1] == second[n];
      ApplyAllAppend(text, first, second[..n], fmt);
    }
  }

  /**
   An entry of any other shape can be dropped wherever it stands in the
   dictionary: the entries before and after it act as if it were not there.
   */
  lemma OtherEntryAnywhere(text: string, before: seq<Entry>, key: string, after: seq<Entry>, fmt: Formatter)
    ensures ApplyAll(text, before + [(key, Other)] + after, fmt) == ApplyAll(text, before + after, fmt)
  {
    var withOther := before + [(key, Other)];
    ApplyAllAppend(text, withOther, after, fmt);
    assert withOther[..|withOther| - 1] == before;
    assert ApplyAll(text, withOther, fmt) == ApplyAll(text, before, fmt);
    ApplyAllAppend(text, before, after, fmt);
  }

  /**
   A text in which no entry's placeholder occurs is a fixed point: binding it
   with those entries changes nothing.
   */
  lemma {:induction false} FullyBoundUnchanged(text: string, entries: seq<Entry>, fmt: Formatter)
    requires forall i :: 0 <= i < |entries| ==> !Contains(text, Placeholder(entries[i].0))
    ensures Bind(text, Some(entries), fmt) == text
    decreases |entries|
  {
    if entries != [] {
      var n := |entries| - 1;
      FullyBoundUnchanged(text, entries[..n], fmt);
      var sub := Substitution(fmt, entries[n].1);
      if sub.Some? {
        ReplaceAllAbsent(text, Placeholder(entries[n].0), sub.value);
      }
    }
  }

  /** A template without any `@` comes back unchanged, whatever the dictionary. */
  lemma NoSigilTemplateUnchanged(template: string, parameters: Option<seq<Entry>>, fmt: Formatter)
    requires '@' !in template
    ensures Bind(template, parameters, fmt) == template
  {
    if parameters.Some? {
      var entries := parameters.value;
      forall i | 0 <= i < |entries| ensures !Contains(template, Placeholder(entries[i].0)) {
        var pat := Placeholder(entries[i].0);
        assert NoEarlyMatch(template, "", pat) by {
          SigilFreeHasNoEarlyMatch(template, "", pat);
        }
        assert template + "" == template;
      }
      FullyBoundUnchanged(template, entries, fmt);
    }
  }

  /** One entry: the text after it is what the entry alone does. */
  lemma ApplyOne(text: string, entry: Entry, fmt: Formatter)
    ensures ApplyAll(text, [entry], fmt) == ApplyEntry(text, entry, fmt)
  {
    assert [entry][..0] == [];
  }

  /** Two entries: the second acts on what the first produced. */
  lemma ApplyTwo(text: string, first: Entry, second: Entry, fmt: Formatter)
    ensures ApplyAll(text, [first, second], fmt) == ApplyEntry(ApplyEntry(text, first, fmt), second, fmt)
  {
    var both := [first, second];
    assert both[..1] == [first];
    assert [first][..0] == [];
    assert ApplyAll(text, [first], fmt) == ApplyEntry(text, first, fmt);
    assert ApplyAll(text, both, fmt) == ApplyEntry(ApplyAll(text, [first], fmt), second, fmt);
  }

  /**
   Order matters when one key is a prefix of another: a null `x` applied first
   rewrites the `@x` at the start of `@xy`; applied after a null `xy`, it finds
   nothing left to rewrite.
   */
  lemma PrefixKeyHazard(fmt: Formatter)
    ensures Bind("VALUES ?v { @xy }", Some([("x", Null), ("xy", Null)]), fmt) == "VALUES ?v { undefy }"
    ensures Bind("VALUES ?v { @xy }", Some([("xy", Null), ("x", Null)]), fmt) == "VALUES ?v { undef }"
  {
    ApplyTwo("VALUES ?v { @xy }", ("x", Null), ("xy", Null), fmt);
    ShorterKeyFirst();
    ApplyTwo("VALUES ?v { @xy }", ("xy", Null), ("x", Null), fmt);
    LongerKeyFirst();
  }

  lemma ShorterKeyFirst()
    ensures ReplaceAll("VALUES ?v { @xy }", Placeholder("x"), Undef) == "VALUES ?v { undefy }"
    ensures ReplaceAll("VALUES ?v { undefy }", Placeholder("xy"), Undef) == "VALUES ?v { undefy }"
  {
    var head: string := "VALUES ?v { ";
    assert "VALUES ?v { @xy }" == head + Placeholder("x") + "y }";
    ReplaceAllFirstAfter(head, "y }", Placeholder("x"), Undef);
    ReplaceAllSigilFree("y }", Placeholder("x"), Undef);
    assert head + Undef + "y }" == "VALUES ?v { undefy }";
    ReplaceAllSigilFree("VALUES ?v { undefy }", Placeholder("xy"), Undef);
  }

  lemma LongerKeyFirst()
    ensures ReplaceAll("VALUES ?v { @xy }", Placeholder("xy"), Undef) == "VALUES ?v { undef }"
    ensures ReplaceAll("VALUES ?v { undef }", Placeholder("x"), Undef) == "VALUES ?v { undef }"
  {
    var head: string := "VALUES ?v { ";
    assert "VALUES ?v { @xy }" == head + Placeholder("xy") + " }";
    ReplaceAllFirstAfter(head, " }", Placeholder("xy"), Undef);
    ReplaceAllSigilFree(" }", Placeholder("xy"), Undef);
    assert head + Undef + " }" == "VALUES ?v { undef }";
    ReplaceAllSigilFree("VALUES ?v { undef }", Placeholder("x"), Undef);
  }

  /**
   Later entries rewrite text that earlier entries inserted: the URI
   `http://ex/@y`, bound to `@x`, contains `@y`, which a later null `y`
   rewrites, even though `x` is not a prefix of `y`.
   */
  lemma LaterEntriesRewriteInsertedText(fmt: Formatter)
    requires fmt.escapeIri("http://ex/@y") == "http://ex/@y"
    ensures Bind("@x", Some([("x", Uris(["http://ex/@y"])), ("y", Null)]), fmt) == "<http://ex/undef>"
  {
    var px, iri: string := Placeholder("x"), "<http://ex/@y>";
    var us: seq<string> := ["http://ex/@y"];
    SingleUriRendered(fmt);
    assert px == "" + px + "";
    ReplaceAllFirstAfter("", "", px, iri);
    assert ReplaceAll(px, px, iri) == iri;
    InsertedPlaceholderRewritten();
    ApplyTwo("@x", ("x", Uris(us)), ("y", Null), fmt);
  }

  lemma SingleUriRendered(fmt: Formatter)
    requires fmt.escapeIri("http://ex/@y") == "http://ex/@y"
    ensures RenderUris(fmt, ["http://ex/@y"]) == "<http://ex/@y>"
  {
    var us: seq<string> := ["http://ex/@y"];
    assert FormattedUris(fmt, us) == [FormatUri(fmt, us[0])];
    assert FormatUri(fmt, us[0]) == "<" + "http://ex/@y" + ">";
  }

  lemma InsertedPlaceholderRewritten()
    ensures ReplaceAll("<http://ex/@y>", Placeholder("y"), Undef) == "<http://ex/undef>"
  {
    var py, head: string := Placeholder("y"), "<http://ex/";
    assert '@' !in head;
    assert "<http://ex/@y>" == head + py + ">";
    ReplaceAllFirstAfter(head, ">", py, Undef);
    ReplaceAllSigilFree(">", py, Undef);
    assert head + Undef + ">" == "<http://ex/undef>";
  }

  /** The single placeholder of `SELECT @x` is replaced by whatever `rep` is. */
  lemma SelectPlaceholderReplaced(rep: string)
    ensures ReplaceAll("SELECT @x", Placeholder("x"), rep) == "SELECT " + rep
  {
    var px := Placeholder("x");
    assert "SELECT @x" == "SELECT " + px + "";
    ReplaceAllFirstAfter("SELECT ", "", px, rep);
    ReplaceAllSigilFree("", px, rep);
  }

  /** Two string values render as their formatted literals with one space between. */
  lemma RenderPair(fmt: Formatter, a: string, b: string)
    ensures RenderLiterals(fmt, [a, b]) == fmt.literal(a) + " " + fmt.literal(b)
  {
    assert FormattedLiterals(fmt, [a, b]) == [fmt.literal(a), fmt.literal(b)];
    JoinPair(" ", fmt.literal(a), fmt.literal(b));
  }

  /**
   Two string values bound to `@x` in `SELECT @x` give the two formatted
   literals separated by one space.
   */
  lemma TwoLiteralsExample(fmt: Formatter)
    ensures Bind("SELECT @x", Some([("x", Literals(["a", "b"]))]), fmt)
         == "SELECT " + fmt.literal("a") + " " + fmt.literal("b")
  {
    var vs: seq<string> := ["a", "b"];
    RenderPair(fmt, "a", "b");
    SelectPlaceholderReplaced(RenderLiterals(fmt, vs));
    ApplyOne("SELECT @x", ("x", Literals(vs)), fmt);
  }

  /** One URI bound to `@x` in `SELECT @x` appears enclosed in angle brackets. */
  lemma OneUriExample(fmt: Formatter)
    ensures Bind("SELECT @x", Some([("x", Uris(["http://ex/1"]))]), fmt)
         == "SELECT <" + fmt.escapeIri("http://ex/1") + ">"
  {
    var us: seq<string> := ["http://ex/1"];
    assert FormattedUris(fmt, us) == [FormatUri(fmt, "http://ex/1")];
    var rep := RenderUris(fmt, us);
    SelectPlaceholderReplaced(rep);
    ApplyOne("SELECT @x", ("x", Uris(us)), fmt);
  }
}
