/** The parts of a catalog package record (as returned by package_search and
    package_show) that the chat pipeline reads, and the test that decides
    whether a resource is a downloadable CSV file. A key that the record may
    lack is an Option; `dict.get(key, default)` is GetOr. */
module Catalog {
  import opened PyStr

  datatype Option<T> = None | Some(value: T)

  /** record.get(key, default) for a string-valued key. */
  function GetOr(field: Option<string>, default: string): string
  {
    match field
    case Some(v) => v
    case None => default
  }

  /** One file attached to a package. */
  datatype Resource = Resource(name: Option<string>, format: Option<string>, url: Option<string>)

  /** A dataset record; `id` is read with record["id"], so it is always there. */
  datatype Package = Package(
    id: string,
    title: Option<string>,
    notes: Option<string>,
    resources: Option<seq<Resource>>)

  /** package.get("resources", []). */
  function ResourcesOf(p: Package): seq<Resource>
  {
    match p.resources
    case Some(rs) => rs
    case None => []
  }

  /** The CSV test the pipeline applies to a resource: the format, lower-cased,
      is "csv" and the URL ends with ".csv"; a missing key reads as "". */
  predicate IsCsvResource(r: Resource)
  {
    Lower(GetOr(r.format, "")) == "csv" && EndsWith(GetOr(r.url, ""), ".csv")
  }

  /** "csv" in any mix of upper and lower case. */
  predicate IsCsvSpelling(f: string)
  {
    |f| == 3 && (f[0] == 'c' || f[0] == 'C') && (f[1] == 's' || f[1] == 'S') && (f[2] == 'v' || f[2] == 'V')
  }

  lemma LowerCharIs(c: char, lo: char, up: char)
    requires 'a' <= lo <= 'z' && up as int == lo as int - 32
    ensures LowerChar(c) == lo <==> c == lo || c == up
  {
  }

  /** A resource qualifies exactly when both keys are present, the format is
      "csv" in any case, and the URL ends with ".csv" in lower case. */
  lemma CsvResourceFields(r: Resource)
    ensures IsCsvResource(r) <==>
      && r.format.Some? && IsCsvSpelling(r.format.value)
      && r.url.Some? && EndsWith(r.url.value, ".csv")
  {
    var f := GetOr(r.format, "");
    LowerCharIs(if |f| > 0 then f[0] else 'c', 'c', 'C');
    LowerCharIs(if |f| > 1 then f[1] else 's', 's', 'S');
    LowerCharIs(if |f| > 2 then f[2] else 'v', 'v', 'V');
    if Lower(f) == "csv" {
      assert |f| == 3;
    }
    if r.format.Some? && IsCsvSpelling(r.format.value) {
      assert Lower(f) == "csv";
    }
  }

  /** any(IsCsvResource(r) for r in rs), which tries the resources in order. */
  predicate AnyCsv(rs: seq<Resource>)
  {
    rs != [] && (IsCsvResource(rs[0]) || AnyCsv(rs[1..]))
  }

  /** any() holds exactly when some resource qualifies. */
  lemma {:induction false} AnyCsvIff(rs: seq<Resource>)
    ensures AnyCsv(rs) <==> exists k :: 0 <= k < |rs| && IsCsvResource(rs[k])
  {
    if rs != [] {
      AnyCsvIff(rs[1..]);
      assert forall k :: 1 <= k < |rs| ==> rs[k] == rs[1..][k - 1];
    }
  }

  /** has_csv_resource(ds): some resource of the package qualifies. */
  predicate HasCsvResource(p: Package)
  {
    AnyCsv(ResourcesOf(p))
  }
}
