/**
 * The notification decisions. main_pdf_re.py, main.py and main_tiff_v2.py
 * notify when `"SSN" in str(results)`; this module renders the results the
 * way Python's `str` does for these dicts and lists, and relates the
 * substring test to the entities.
 */
module Report {
  import opened Common

  /** Python's `"SSN" in s`. */
  predicate HasSsn(s: string)
    decreases |s|
  {
    |s| >= 3 && (s[..3] == "SSN" || HasSsn(s[1..]))
  }

  /** No occurrence of "SSN" can straddle the seam between `x` and `y`. */
  predicate CleanSeam(x: string, y: string)
  {
    x == "" || y == "" || x[|x| - 1] != 'S' || (y[0] != 'S' && y[0] != 'N')
  }

  /** Across a clean seam, "SSN" occurs in `x + y` exactly when it occurs in
      one of the parts. */
  lemma {:induction false} HasSsnConcat(x: string, y: string)
    requires CleanSeam(x, y)
    ensures HasSsn(x + y) <==> HasSsn(x) || HasSsn(y)
    decreases |x|
  {
    if |x| == 0 {
      assert x + y == y;
    } else {
      var xs := x[1..];
      assert (x + y)[1..] == xs + y;
      HasSsnConcat(xs, y);
      if |x| >= 3 {
        assert (x + y)[..3] == x[..3];
      } else if |x| == 1 {
        assert |y| > 0 ==> (x + y)[0] == x[0] && (x + y)[1] == y[0];
      } else {
        assert |y| > 0 ==> (x + y)[1] == x[1] && (x + y)[2] == y[0];
      }
    }
  }

  /** A string without the letter 'S' holds no "SSN". */
  lemma {:induction false} NoSNoSsn(s: string)
    requires forall i :: 0 <= i < |s| ==> s[i] != 'S'
    ensures !HasSsn(s)
    decreases |s|
  {
    if |s| >= 3 {
      assert s[..3][0] == s[0];
      NoSNoSsn(s[1..]);
    }
  }

  // ---------------------------------------------------------------------
  // str() of the values in the results

  function DigitChar(d: nat): char
    requires d < 10
  {
    (48 + d) as char
  }

  /** `str(n)` for a non-negative int. */
  function Num(n: nat): (s: string)
    ensures |s| > 0 && forall i :: 0 <= i < |s| ==> '0' <= s[i] <= '9'
  {
    if n < 10 then [DigitChar(n)] else Num(n / 10) + [DigitChar(n % 10)]
  }

  /** Up to `n` decimal digits of the fraction `f`, stopping once the rest is
      zero. */
  function Decimals(f: real, n: nat): (s: string)
    requires 0.0 <= f < 1.0
    ensures forall i :: 0 <= i < |s| ==> '0' <= s[i] <= '9'
    decreases n
  {
    if n == 0 || f == 0.0 then ""
    else
      var d := (f * 10.0).Floor;
      [DigitChar(d)] + Decimals(f * 10.0 - d as real, n - 1)
  }

  /** `str(x)` for a float: sign, integer part, '.', and the fraction
      ("0" when there is none, so `1.0` renders as "1.0"). */
  function FloatRepr(x: real): (s: string)
    ensures |s| > 0 && forall i :: 0 <= i < |s| ==> s[i] == '-' || s[i] == '.' || '0' <= s[i] <= '9'
  {
    var a := if x < 0.0 then -x else x;
    var whole := a.Floor;
    var frac := a - whole as real;
    (if x < 0.0 then "-" else "") + Num(whole) + "." + (if frac == 0.0 then "0" else Decimals(frac, 17))
  }

  /** `repr` of a str inside a container. */
  function Quoted(s: string): string
  {
    "'" + s + "'"
  }

  /** `', '.join(items)`, as `str` separates the items of a dict or list. */
  function Commas(items: seq<string>): string
  {
    if |items| == 0 then ""
    else if |items| == 1 then items[0]
    else Commas(items[..|items| - 1]) + ", " + items[|items| - 1]
  }

  /** One `key: value` item of a dict. */
  function Field(key: string, value: string): string
  {
    Quoted(key) + ": " + value
  }

  function Dict(fields: seq<string>): string
  {
    "{" + Commas(fields) + "}"
  }

  function List(items: seq<string>): string
  {
    "[" + Commas(items) + "]"
  }

  /** A record built by `detect_ssn`, keys in the order it inserts them. */
  function DetectedRepr(e: Entity): string
  {
    Dict([Field("BeginOffset", Num(e.beginOffset)), Field("EndOffset", Num(e.endOffset)),
          Field("Score", FloatRepr(e.score)), Field("Type", Quoted(e.kind))])
  }

  /** An entity as Comprehend's response lists its keys. */
  function ComprehendRepr(e: Entity): string
  {
    Dict([Field("Score", FloatRepr(e.score)), Field("Type", Quoted(e.kind)),
          Field("BeginOffset", Num(e.beginOffset)), Field("EndOffset", Num(e.endOffset))])
  }

  /** A Comprehend response, or the `{'Entities': []}` a blank page gives:
      its entities and the rest of its items (`ResponseMetadata`), each
      already rendered as a `key: value` item. */
  datatype Response = Response(entities: seq<Entity>, metadata: seq<string>)

  /** `str({'Entities': [...]})` of one page of `detect_ssn` output. */
  function DetectedPageRepr(entities: seq<Entity>): string
  {
    Dict([Field("Entities", List(seq(|entities|, k requires 0 <= k < |entities| => DetectedRepr(entities[k]))))])
  }

  function ResponseRepr(r: Response): string
  {
    var es := r.entities;
    Dict([Field("Entities", List(seq(|es|, k requires 0 <= k < |es| => ComprehendRepr(es[k]))))] + r.metadata)
  }

  /** `str(all_pii_responses)` in main_pdf_re.py. */
  function DetectedPagesRepr(pages: seq<seq<Entity>>): string
  {
    List(seq(|pages|, p requires 0 <= p < |pages| => DetectedPageRepr(pages[p])))
  }

  /** `str(json_data)` in main.py, after the JSON round trip. */
  function ResponsesRepr(pages: seq<Response>): string
  {
    List(seq(|pages|, p requires 0 <= p < |pages| => ResponseRepr(pages[p])))
  }

  // ---------------------------------------------------------------------
  // Where "SSN" can occur

  /** The separators `str` puts between items never help form "SSN". */
  lemma {:induction false} CommasHasSsn(items: seq<string>)
    ensures HasSsn(Commas(items)) <==> exists k :: 0 <= k < |items| && HasSsn(items[k])
  {
    if |items| > 1 {
      var init := items[..|items| - 1];
      var last := items[|items| - 1];
      CommasHasSsn(init);
      HasSsnConcat(Commas(init), ", ");
      assert !HasSsn(", ");
      HasSsnConcat(Commas(init) + ", ", last);
      assert Commas(items) == Commas(init) + ", " + last;
      if exists k :: 0 <= k < |items| && HasSsn(items[k]) {
        var k :| 0 <= k < |items| && HasSsn(items[k]);
        if k < |items| - 1 {
          assert init[k] == items[k];
        }
      }
      if exists k :: 0 <= k < |init| && HasSsn(init[k]) {
        var k :| 0 <= k < |init| && HasSsn(init[k]);
        assert items[k] == init[k];
      }
    }
  }

  lemma BracketsHasSsn(items: seq<string>)
    ensures HasSsn(Dict(items)) <==> HasSsn(Commas(items))
    ensures HasSsn(List(items)) <==> HasSsn(Commas(items))
  {
    var c := Commas(items);
    HasSsnConcat("{", c);
    HasSsnConcat("{" + c, "}");
    HasSsnConcat("[", c);
    HasSsnConcat("[" + c, "]");
  }

  lemma QuotedHasSsn(s: string)
    ensures HasSsn(Quoted(s)) <==> HasSsn(s)
  {
    HasSsnConcat("'", s);
    HasSsnConcat("'" + s, "'");
  }

  /** A key without "SSN" adds none to its item. */
  lemma FieldHasSsn(key: string, value: string)
    requires !HasSsn(key)
    ensures HasSsn(Field(key, value)) <==> HasSsn(value)
  {
    QuotedHasSsn(key);
    HasSsnConcat(Quoted(key), ": ");
    assert !HasSsn(": ");
    HasSsnConcat(Quoted(key) + ": ", value);
  }

  /** None of the keys the results use holds "SSN". */
  lemma KeyClean(key: string)
    requires key == "BeginOffset" || key == "EndOffset" || key == "Score" || key == "Type" || key == "Entities"
    ensures !HasSsn(key)
  {
    if key == "Score" {
      var rest := "core";
      NoSNoSsn(rest);
      assert key[1..] == rest;
    } else {
      NoSNoSsn(key);
    }
  }

  /** Numbers carry no letters, so a record holds "SSN" exactly when its
      type does, in either key order. */
  lemma FieldsHasSsn(e: Entity)
    ensures HasSsn(Field("BeginOffset", Num(e.beginOffset))) == false
    ensures HasSsn(Field("EndOffset", Num(e.endOffset))) == false
    ensures HasSsn(Field("Score", FloatRepr(e.score))) == false
    ensures HasSsn(Field("Type", Quoted(e.kind))) <==> HasSsn(e.kind)
  {
    NoSNoSsn(Num(e.beginOffset));
    NoSNoSsn(Num(e.endOffset));
    NoSNoSsn(FloatRepr(e.score));
    QuotedHasSsn(e.kind);
    KeyClean("BeginOffset");
    FieldHasSsn("BeginOffset", Num(e.beginOffset));
    KeyClean("EndOffset");
    FieldHasSsn("EndOffset", Num(e.endOffset));
    KeyClean("Score");
    FieldHasSsn("Score", FloatRepr(e.score));
    KeyClean("Type");
    FieldHasSsn("Type", Quoted(e.kind));
  }

  lemma DetectedHasSsn(e: Entity)
    ensures HasSsn(DetectedRepr(e)) <==> HasSsn(e.kind)
  {
    FieldsHasSsn(e);
    var fs := [Field("BeginOffset", Num(e.beginOffset)), Field("EndOffset", Num(e.endOffset)),
               Field("Score", FloatRepr(e.score)), Field("Type", Quoted(e.kind))];
    CommasHasSsn(fs);
    BracketsHasSsn(fs);
  }

  lemma ComprehendHasSsn(e: Entity)
    ensures HasSsn(ComprehendRepr(e)) <==> HasSsn(e.kind)
  {
    FieldsHasSsn(e);
    var fs := [Field("Score", FloatRepr(e.score)), Field("Type", Quoted(e.kind)),
               Field("BeginOffset", Num(e.beginOffset)), Field("EndOffset", Num(e.endOffset))];
    assert forall k :: 0 <= k < |fs| && k != 1 ==> !HasSsn(fs[k]);
    assert HasSsn(fs[1]) <==> HasSsn(e.kind);
    CommasHasSsn(fs);
    BracketsHasSsn(fs);
    assert ComprehendRepr(e) == Dict(fs);
  }

  /** Some entity's type holds "SSN". */
  ghost predicate SomeKind(entities: seq<Entity>)
  {
    exists k :: 0 <= k < |entities| && HasSsn(entities[k].kind)
  }

  /** A response mentions "SSN" in an entity type or in its metadata. */
  ghost predicate Mentions(r: Response)
  {
    SomeKind(r.entities) || exists m :: 0 <= m < |r.metadata| && HasSsn(r.metadata[m])
  }

  lemma DetectedPageHasSsn(entities: seq<Entity>)
    ensures HasSsn(DetectedPageRepr(entities)) <==> SomeKind(entities)
  {
    var items := seq(|entities|, k requires 0 <= k < |entities| => DetectedRepr(entities[k]));
    forall k | 0 <= k < |entities|
      ensures HasSsn(items[k]) <==> HasSsn(entities[k].kind)
    {
      DetectedHasSsn(entities[k]);
    }
    CommasHasSsn(items);
    BracketsHasSsn(items);
    KeyClean("Entities");
    FieldHasSsn("Entities", List(items));
    BracketsHasSsn([Field("Entities", List(items))]);
  }

  lemma EntitiesFieldHasSsn(es: seq<Entity>)
    ensures HasSsn(Field("Entities", List(seq(|es|, k requires 0 <= k < |es| => ComprehendRepr(es[k])))))
            <==> SomeKind(es)
  {
    var items := seq(|es|, k requires 0 <= k < |es| => ComprehendRepr(es[k]));
    forall k | 0 <= k < |es|
      ensures HasSsn(items[k]) <==> HasSsn(es[k].kind)
    {
      ComprehendHasSsn(es[k]);
    }
    CommasHasSsn(items);
    BracketsHasSsn(items);
    KeyClean("Entities");
    FieldHasSsn("Entities", List(items));
  }

  lemma ResponseHasSsn(r: Response)
    ensures HasSsn(ResponseRepr(r)) <==> Mentions(r)
  {
    var es := r.entities;
    var head := Field("Entities", List(seq(|es|, k requires 0 <= k < |es| => ComprehendRepr(es[k]))));
    EntitiesFieldHasSsn(es);
    var fields := [head] + r.metadata;
    assert ResponseRepr(r) == Dict(fields);
    CommasHasSsn(fields);
    BracketsHasSsn(fields);
    assert forall m :: 0 <= m < |r.metadata| ==> fields[m + 1] == r.metadata[m];
    assert fields[0] == head;
    if exists k :: 0 <= k < |fields| && HasSsn(fields[k]) {
      var k :| 0 <= k < |fields| && HasSsn(fields[k]);
      if k > 0 {
        assert r.metadata[k - 1] == fields[k];
      }
    }
    if exists m :: 0 <= m < |r.metadata| && HasSsn(r.metadata[m]) {
      var m :| 0 <= m < |r.metadata| && HasSsn(r.metadata[m]);
      assert HasSsn(fields[m + 1]);
    }
    if SomeKind(es) {
      assert HasSsn(fields[0]);
    }
  }

  /** main_pdf_re.py notifies exactly when some page has a record whose type
      holds "SSN". */
  lemma DetectedPagesHasSsn(pages: seq<seq<Entity>>)
    ensures HasSsn(DetectedPagesRepr(pages)) <==> exists p :: 0 <= p < |pages| && SomeKind(pages[p])
  {
    var items := seq(|pages|, p requires 0 <= p < |pages| => DetectedPageRepr(pages[p]));
    forall p | 0 <= p < |pages|
      ensures HasSsn(items[p]) <==> SomeKind(pages[p])
    {
      DetectedPageHasSsn(pages[p]);
    }
    CommasHasSsn(items);
    BracketsHasSsn(items);
  }

  /** main.py and main_tiff_v2.py notify exactly when some response mentions
      "SSN". */
  lemma ResponsesHasSsn(pages: seq<Response>)
    ensures HasSsn(ResponsesRepr(pages)) <==> exists p :: 0 <= p < |pages| && Mentions(pages[p])
  {
    var items := seq(|pages|, p requires 0 <= p < |pages| => ResponseRepr(pages[p]));
    forall p | 0 <= p < |pages|
      ensures HasSsn(items[p]) <==> Mentions(pages[p])
    {
      ResponseHasSsn(pages[p]);
    }
    CommasHasSsn(items);
    BracketsHasSsn(items);
  }

  /** For records whose type is 'SSN', as `detect_ssn` builds them, the
      substring test is exactly "some page has a record". */
  lemma RecordsNotify(pages: seq<seq<Entity>>)
    requires forall p, k :: 0 <= p < |pages| && 0 <= k < |pages[p]| ==> pages[p][k].kind == "SSN"
    ensures HasSsn(DetectedPagesRepr(pages)) <==> exists p :: 0 <= p < |pages| && |pages[p]| > 0
  {
    DetectedPagesHasSsn(pages);
    assert HasSsn("SSN");
    forall p | 0 <= p < |pages|
      ensures SomeKind(pages[p]) <==> |pages[p]| > 0
    {
      if |pages[p]| > 0 {
        assert HasSsn(pages[p][0].kind);
      }
    }
  }
}
