/** The `/add-project` handler: names the uploaded image, converts the long
    description, renders the page from the template and appends the project
    to the catalog. Disk reads become inputs and disk writes outputs. */
module Publish {
  import opened Wrappers
  import opened Request
  import opened Fragments
  import opened Template
  import opened Catalog

  /** What one successful submission produces: the stored image's name (the
      image itself is written under ImageDir), the rendered page and where
      it is written, and the catalog written back. */
  datatype Published = Published(
    imageName: Option<string>,
    pagePath: string,
    page: string,
    catalog: seq<ProjectRecord>)

  /** Reading the page template throws when the file is missing; writing
      the page throws when its name is empty, since the path is then the
      page directory itself. */
  datatype PublishError = TemplateMissing | PageFileInvalid

  /** The six placeholder values; `markdown` stands for `marked.parse`. */
  function PageFills(form: Form, imageName: Option<string>, markdown: string -> string): Fills {
    Fills(form.title, form.shortDesc, markdown(form.longDesc), ImagePath(imageName),
          GithubButton(form.github), ItchButton(form.itch))
  }

  /** One submission. `now` is `Date.now()`, `template` the page template's
      text if the file exists, `stored` the parsed `projects.json` if that
      file exists. */
  method AddProject(form: Form, file: Option<Upload>, now: nat, template: Option<string>,
                    stored: Option<seq<ProjectRecord>>, markdown: string -> string)
    returns (r: Result<Published, PublishError>)
    ensures r.Failure? <==> template.None? || form.htmlFile == []
    ensures template.None? ==> r == Failure(TemplateMissing)
    ensures template.Some? && form.htmlFile == [] ==> r == Failure(PageFileInvalid)
    ensures r.Success? ==> r.value.imageName == ImageName(now, file)
    ensures r.Success? ==> r.value.page == Render(template.value, PageFills(form, r.value.imageName, markdown))
    ensures r.Success? ==> r.value.pagePath == "html/" + form.htmlFile
    ensures r.Success? ==> r.value.catalog == Appended(stored, NewRecord(form, r.value.imageName))
    ensures r.Success? ==> r.value.catalog[|Prior(stored)|].htmlFile == r.value.pagePath
    ensures r.Success? ==> r.value.catalog[|Prior(stored)|].longDesc == form.longDesc
  {
    var imageName := ImageName(now, file);
    var longDescHtml := markdown(form.longDesc);
    if template.None? {
      return Failure(TemplateMissing);
    }
    var githubButton := GithubButton(form.github);
    var itchButton := ItchButton(form.itch);
    var page := Render(template.value, Fills(form.title, form.shortDesc, longDescHtml,
                                             ImagePath(imageName), githubButton, itchButton));
    if form.htmlFile == [] {
      return Failure(PageFileInvalid);
    }
    var catalog := AppendProject(stored, NewRecord(form, imageName));
    r := Success(Published(imageName, "html/" + form.htmlFile, page, catalog));
  }

  /** The page gets a GitHub button exactly when a GitHub link was given, and
      an Itch.io button exactly when an Itch.io link was given, each holding
      the submitted link unchanged. */
  lemma ButtonsFollowLinks(form: Form, imageName: Option<string>, markdown: string -> string)
    ensures PageFills(form, imageName, markdown).githubButton == [] <==> form.github == []
    ensures PageFills(form, imageName, markdown).itchButton == [] <==> form.itch == []
    ensures form.github != [] ==> LinkOf(PageFills(form, imageName, markdown).githubButton, GithubClose) == Some(form.github)
    ensures form.itch != [] ==> LinkOf(PageFills(form, imageName, markdown).itchButton, ItchClose) == Some(form.itch)
  {
    ButtonRoundTrip(form.github, GithubClose);
    ButtonRoundTrip(form.itch, ItchClose);
  }

  /** A title holding `{{ITCH_BUTTON}}` between brace-free text shows the
      Itch.io button there: substitution is chained, not a single pass. */
  lemma TitleNamingItchButton(form: Form, imageName: Option<string>, markdown: string -> string,
                              a: string, b: string)
    requires form.title == a + ItchButtonToken + b && BraceFree(a) && BraceFree(b)
    ensures Render(TitleToken, PageFills(form, imageName, markdown)) == a + ItchButton(form.itch) + b
  {
    var f := PageFills(form, imageName, markdown);
    LaterPlaceholderInValueExpands(f, 0, 5, a, b);
    ItchButtonVerbatim(f);
  }
}
