/**
 Rendering of parameter values as SPARQL 1.1 terms, as the binder asks
 dotNetRDF's `SparqlFormatter` to do it. The formatter itself is library code:
 how it quotes and escapes a literal, and how it escapes the characters of an
 IRI, are fields of `Formatter` that the model leaves unconstrained. What the
 binder adds around them is modelled: an IRI is enclosed in `<` and `>`, and the
 rendered values of one parameter are joined by single spaces.
 */
module SparqlFormatting {
  import opened Text

  /**
   The two renderings the binder uses: `literal` stands for formatting a
   literal node made from a string, `escapeIri` for the escaping the formatter
   applies to the text of an IRI before enclosing it.
   */
  datatype Formatter = Formatter(literal: string -> string, escapeIri: string -> string)

  /** The keyword bound to a parameter whose value is null: inline-data UNDEF (SPARQL 1.1, section 10.2). */
  const Undef: string := "undef"

  /** An IRI as an `IRIREF` token: its escaped text between angle brackets. */
  function FormatUri(fmt: Formatter, uri: string): (r: string)
    ensures |r| == |fmt.escapeIri(uri)| + 2
    ensures r[0] == '<' && r[|r| - 1] == '>'
    ensures r[1..|r| - 1] == fmt.escapeIri(uri)
  {
    "<" + fmt.escapeIri(uri) + ">"
  }

  function FormattedLiterals(fmt: Formatter, values: seq<string>): seq<string> {
    seq(|values|, i requires 0 <= i < |values| => fmt.literal(values[i]))
  }

  function FormattedUris(fmt: Formatter, uris: seq<string>): seq<string> {
    seq(|uris|, i requires 0 <= i < |uris| => FormatUri(fmt, uris[i]))
  }

  /** `string.Join(" ", values.Select(format-literal))`. */
  function RenderLiterals(fmt: Formatter, values: seq<string>): (r: string)
    ensures values == [] ==> r == ""
    ensures |values| > 0 ==> fmt.literal(values[0]) <= r
  {
    Join(" ", FormattedLiterals(fmt, values))
  }

  /** `string.Join(" ", uris.Select(format-uri))`. */
  function RenderUris(fmt: Formatter, uris: seq<string>): (r: string)
    ensures uris == [] ==> r == ""
    ensures |uris| > 0 ==> |r| >= 2 && r[0] == '<' && r[|r| - 1] == '>'
  {
    JoinEnds(" ", FormattedUris(fmt, uris));
    Join(" ", FormattedUris(fmt, uris))
  }

  /**
   A character allowed between the brackets of an `IRIREF`
   (SPARQL 1.1, section 19.8): anything but `<>"{}|^` + "`" + `\` and the
   characters up to and including space.
   */
  predicate IriRefChar(c: char) {
    c > ' ' && c !in "<>\"{}|^`\\"
  }

  /** A well-formed `IRIREF` token (SPARQL 1.1, section 19.8). */
  predicate IsIriRef(s: string) {
    |s| >= 2 && s[0] == '<' && s[|s| - 1] == '>' &&
    forall i :: 0 < i < |s| - 1 ==> IriRefChar(s[i])
  }

  /** The escaper produces only characters an `IRIREF` may contain for `uri`. */
  predicate EscapesToIriRef(fmt: Formatter, uri: string) {
    forall c :: c in fmt.escapeIri(uri) ==> IriRefChar(c)
  }

  /**
   When the escaper produces IRIREF characters, the rendered URI list reads back,
   split on single spaces, as one well-formed `IRIREF` per URI, in order; so the
   joined text is exactly the URIs, each enclosed in `<` and `>`, separated by
   single spaces.
   */
  lemma RenderUrisReadsBack(fmt: Formatter, uris: seq<string>)
    requires |uris| > 0
    requires forall i :: 0 <= i < |uris| ==> EscapesToIriRef(fmt, uris[i])
    ensures SplitOn(RenderUris(fmt, uris), " ") == FormattedUris(fmt, uris)
    ensures forall i :: 0 <= i < |uris| ==> IsIriRef(FormattedUris(fmt, uris)[i])
  {
    var pieces := FormattedUris(fmt, uris);
    forall j: nat | j < |pieces|
      ensures IsIriRef(pieces[j])
      ensures NoEarlyMatch(pieces[j], Follower(pieces, " ", j), " ")
    {
      var e := fmt.escapeIri(uris[j]);
      assert pieces[j] == "<" + e + ">";
      forall i | 0 < i < |pieces[j]| - 1 ensures IriRefChar(pieces[j][i]) {
        assert pieces[j][i] == e[i - 1];
      }
      assert ' ' !in pieces[j] by {
        forall i | 0 <= i < |pieces[j]| ensures pieces[j][i] != ' ' {
          if 0 < i < |pieces[j]| - 1 {
            assert IriRefChar(pieces[j][i]);
          }
        }
      }
      SigilFreeHasNoEarlyMatch(pieces[j], Follower(pieces, " ", j), " ");
    }
    SplitOnUnique(RenderUris(fmt, uris), " ", pieces);
  }
}
