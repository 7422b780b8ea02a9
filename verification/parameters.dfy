/** `processParameters`: a comma-separated text turned into a list of
    values, each piece trimmed and then parsed as a JSON literal when
    possible. `JSON.parse` is not modelled; it is the parameter `parse`,
    a partial function whose `None` stands for a thrown `SyntaxError`. */
module Parameters {
  import opened Wrappers
  import opened JsTrim
  import opened JsSplit

  /** A materialized value: what `JSON.parse` produced, or the trimmed
      piece itself when parsing threw. */
  datatype Arg<V> = Parsed(value: V) | Raw(text: string)

  /** `paramString.split(',').map(p => p.trim())`: one trimmed, comma-free
      piece per comma-separated field, in order. */
  function Pieces(paramString: string): (r: seq<string>)
    ensures |r| == multiset(paramString)[','] + 1
    ensures forall k :: 0 <= k < |r| ==> IsTrimmed(r[k]) && ',' !in r[k]
    ensures forall k :: 0 <= k < |r| ==> r[k] == Trim(Split(paramString, ',')[k])
  {
    var parts := Split(paramString, ',');
    seq(|parts|, k requires 0 <= k < |parts| => TrimPiece(parts[k]))
  }

  /** The trim of a comma-free piece is comma free. */
  function TrimPiece(p: string): (r: string)
    requires ',' !in p
    ensures r == Trim(p) && ',' !in r
  {
    var r := Trim(p);
    var a :| TrimmedAt(p, r, a);
    assert forall k :: 0 <= k < |r| ==> r[k] == p[a + k];
    r
  }

  /** `try { return JSON.parse(value) } catch { return value }`. */
  function Materialize<V>(value: string, parse: string -> Option<V>): Arg<V> {
    match parse(value)
    case Some(v) => Parsed(v)
    case None => Raw(value)
  }

  /** `processParameters(paramString)`: exactly one value per piece, in the
      same order; piece `k` becomes what `parse` makes of it or, when
      parsing fails, the piece itself. Nothing is dropped and nothing
      fails. */
  function ProcessParameters<V>(paramString: string, parse: string -> Option<V>): (r: seq<Arg<V>>)
    ensures |r| == multiset(paramString)[','] + 1
    ensures forall k :: 0 <= k < |r| && parse(Pieces(paramString)[k]).Some? ==>
      r[k] == Parsed(parse(Pieces(paramString)[k]).value)
    ensures forall k :: 0 <= k < |r| && parse(Pieces(paramString)[k]).None? ==>
      r[k] == Raw(Pieces(paramString)[k])
    ensures forall k :: 0 <= k < |r| && r[k].Raw? ==> IsTrimmed(r[k].text) && ',' !in r[k].text
  {
    var pieces := Pieces(paramString);
    seq(|pieces|, k requires 0 <= k < |pieces| => Materialize(pieces[k], parse))
  }

  /** Materializing comma-separated fields that are already trimmed and
      comma free sees exactly those fields, whatever the parser. */
  lemma FieldsRoundTrip<V>(fields: seq<string>, parse: string -> Option<V>)
    requires |fields| > 0
    requires forall k :: 0 <= k < |fields| ==> IsTrimmed(fields[k]) && ',' !in fields[k]
    ensures Pieces(Join(fields, ',')) == fields
    ensures |ProcessParameters(Join(fields, ','), parse)| == |fields|
  {
    SplitJoin(fields, ',');
    forall k | 0 <= k < |fields| ensures Pieces(Join(fields, ','))[k] == fields[k] {
      TrimOfTrimmed(fields[k]);
    }
  }

  /** An empty parameter text still yields one value, the materialized
      empty string (which `JSON.parse` rejects). */
  lemma EmptyTextYieldsOneValue<V>(parse: string -> Option<V>)
    requires parse("") == None
    ensures ProcessParameters("", parse) == [Raw("")]
  {
    assert Split("", ',') == [""];
    TrimOfTrimmed("");
  }

  /** Two fields written as `a, b` are seen as exactly `a` and `b`. */
  lemma TwoFields(s: string, a: string, b: string)
    requires s == a + ", " + b
    requires IsTrimmed(a) && ',' !in a && IsTrimmed(b) && ',' !in b
    ensures Pieces(s) == [a, b]
  {
    var parts := [a, " " + b];
    assert Split(s, ',') == parts by {
      assert Join(parts, ',') == s by {
        assert Join(parts[1..], ',') == " " + b;
      }
      assert SeparatorFree(parts, ',');
      SplitCharacterised(s, ',', parts);
    }
    TrimOfTrimmed(a);
    SpaceThenTrimmed(b);
  }

  /** One leading blank is trimmed away. */
  lemma SpaceThenTrimmed(b: string)
    requires IsTrimmed(b)
    ensures Trim(" " + b) == b
  {
    var s := " " + b;
    assert s[1..1 + |b|] == b;
    assert TrimmedAt(s, b, 1);
    TrimUnique(s, b, 1);
  }

  /** An unparsable piece is kept as its trimmed text, next to the parsed
      one: `"2, {bad json"` gives the number 2 and the text `"{bad json"`. */
  lemma BadLiteralKeptRaw<V>(parse: string -> Option<V>, two: V)
    requires parse("2") == Some(two) && parse("{bad json") == None
    ensures ProcessParameters("2, {bad json", parse) == [Parsed(two), Raw("{bad json")]
  {
    BadLiteralPieces();
    ProcessTwoPieces("2, {bad json", parse, "2", "{bad json");
  }

  lemma BadLiteralPieces()
    ensures Pieces("2, {bad json") == ["2", "{bad json"]
  {
    var s := "2, {bad json";
    assert s == "2" + ", " + "{bad json";
    TwoFields(s, "2", "{bad json");
  }

  lemma ProcessTwoPieces<V>(s: string, parse: string -> Option<V>, p0: string, p1: string)
    requires Pieces(s) == [p0, p1]
    ensures ProcessParameters(s, parse) == [Materialize(p0, parse), Materialize(p1, parse)]
  {
  }
}
