/** The project catalog: the list of project records kept in
    `projects.json`, read, extended by one record and written back. */
module Catalog {
  import opened Wrappers
  import opened Request
  import opened Fragments

  /** One catalog entry, with the fields in the order the handler writes them. */
  datatype ProjectRecord = ProjectRecord(
    title: string,
    shortDesc: string,
    longDesc: string,
    image: string,
    htmlFile: string,
    github: string,
    itch: string)

  /** `img/projects/${imageName}`: a missing name is the JavaScript value
      null, which the template literal writes as "null". */
  function RecordImage(imageName: Option<string>): string {
    ImageDir + match imageName
               case Some(n) => n
               case None => "null"
  }

  /** The record the handler appends: the raw form text (the long
      description before Markdown conversion) and paths under `img/` and
      `html/`. */
  function NewRecord(form: Form, imageName: Option<string>): ProjectRecord {
    ProjectRecord(form.title, form.shortDesc, form.longDesc, RecordImage(imageName),
                  "html/" + form.htmlFile, form.github, form.itch)
  }

  /** A name that starts with a digit is never the text "null". */
  lemma NotNullPath(n: string)
    requires n != [] && IsDigit(n[0])
    ensures ImageDir + n != ImageDir + "null"
  {
    assert (ImageDir + n)[|ImageDir|] == n[0];
    assert (ImageDir + "null")[|ImageDir|] == 'n';
  }

  /** The record's image path agrees with the page's when a file was
      uploaded; without one, the page gets "" but the record names
      `img/projects/null`, and only then. */
  lemma RecordImageVersusPage(form: Form, now: nat, file: Option<Upload>)
    ensures file.Some? ==> NewRecord(form, ImageName(now, file)).image == ImagePath(ImageName(now, file))
    ensures file.None? ==> ImagePath(ImageName(now, file)) == []
    ensures NewRecord(form, ImageName(now, file)).image == ImageDir + "null" <==> file.None?
  {
    if file.Some? {
      var n := ImageName(now, file).value;
      var d := Decimal(now);
      assert n[0] == d[0];
      NotNullPath(n);
    }
  }

  /** The in-memory JavaScript array of records that `push` extends. */
  class ProjectList {
    var items: seq<ProjectRecord>

    constructor (initial: seq<ProjectRecord>)
      ensures items == initial
    {
      items := initial;
    }

    method Push(rec: ProjectRecord)
      modifies this
      ensures items == old(items) + [rec]
    {
      items := items + [rec];
    }
  }

  /** The catalog read from disk, or the empty list when there is none. */
  function Prior(stored: Option<seq<ProjectRecord>>): seq<ProjectRecord> {
    stored.GetOr([])
  }

  /** The catalog written back after one submission. */
  function Appended(stored: Option<seq<ProjectRecord>>, rec: ProjectRecord): seq<ProjectRecord> {
    Prior(stored) + [rec]
  }

  /** Starts from an empty list, replaces it by the stored catalog when the
      file exists, pushes the new record and returns what is written back. */
  method AppendProject(stored: Option<seq<ProjectRecord>>, rec: ProjectRecord)
    returns (catalog: seq<ProjectRecord>)
    ensures catalog == Appended(stored, rec)
    ensures |catalog| == |Prior(stored)| + 1
    ensures catalog[..|Prior(stored)|] == Prior(stored) && catalog[|Prior(stored)|] == rec
    ensures stored.None? ==> catalog == [rec]
  {
    var projects := new ProjectList([]);
    if stored.Some? {
      projects := new ProjectList(stored.value);
    }
    projects.Push(rec);
    catalog := projects.items;
  }

  /** The catalog after a run of submissions, one after the other. */
  function CatalogAfter(stored: Option<seq<ProjectRecord>>, recs: seq<ProjectRecord>): seq<ProjectRecord>
    decreases |recs|
  {
    if recs == [] then Prior(stored) else CatalogAfter(Some(Appended(stored, recs[0])), recs[1..])
  }

  /** Sequential submissions only append: the prior records stay as they
      were and the new ones follow in submission order; starting from no
      file, N submissions leave exactly those N records. */
  lemma {:induction false} CatalogAfterSubmissions(stored: Option<seq<ProjectRecord>>, recs: seq<ProjectRecord>)
    ensures CatalogAfter(stored, recs) == Prior(stored) + recs
    ensures stored.None? ==> CatalogAfter(stored, recs) == recs
    decreases |recs|
  {
    if recs != [] {
      CatalogAfterSubmissions(Some(Appended(stored, recs[0])), recs[1..]);
      assert Prior(stored) + [recs[0]] + recs[1..] == Prior(stored) + recs;
    }
  }
}
