/** frontend/pages/impact.js: the category list, the project filter and the active flag of each card. */
module Impact {
  import opened Lists

  datatype Project = Project(id: int, title: string, category: string, currentAmount: int, goalAmount: int)

  /** The projects shown on the page. */
  const PROJECTS: seq<Project> := [
    Project(1, "Education for All", "education", 15000, 20000),
    Project(2, "Clean Ocean Initiative", "environment", 30000, 50000),
    Project(3, "Healthcare Access", "healthcare", 20000, 50000)
  ]

  /** `projects.map(project => project.category)`. */
  function ProjectCategories(projects: seq<Project>): (r: seq<string>)
    ensures |r| == |projects|
    ensures forall i :: 0 <= i < |projects| ==> r[i] == projects[i].category
  {
    seq(|projects|, i requires 0 <= i < |projects| => projects[i].category)
  }

  /** `[...new Set(projects.map(project => project.category))]`. */
  function Categories(projects: seq<Project>): (r: seq<string>)
    ensures forall c :: c in r <==> exists p :: p in projects && p.category == c
    ensures forall i, j :: 0 <= i < j < |r| ==> r[i] != r[j]
  {
    var cs := ProjectCategories(projects);
    assert forall p :: p in projects ==> p.category in cs by {
      forall p | p in projects ensures p.category in cs {
        var i :| 0 <= i < |projects| && projects[i] == p;
        assert cs[i] == p.category;
      }
    }
    Unique(cs)
  }

  /** The categories come in the order in which projects first use them. */
  lemma CategoriesInOrder(projects: seq<Project>)
    ensures var cs := ProjectCategories(projects);
      forall i, j :: 0 <= i < j < |Categories(projects)| ==>
        FirstIndex(cs, Categories(projects)[i]) < FirstIndex(cs, Categories(projects)[j])
  {
    UniqueInOrder(ProjectCategories(projects));
  }

  /** `project => project.category === activeCategory`. */
  function InCategory(c: string): Project -> bool
  {
    (p: Project) => p.category == c
  }

  /** `filteredProjects`. */
  function FilteredProjects(projects: seq<Project>, activeCategory: string): (r: seq<Project>)
    ensures activeCategory == "all" ==> r == projects
    ensures activeCategory != "all" ==> forall p :: p in r <==> p in projects && p.category == activeCategory
    ensures activeCategory != "all" ==>
              forall p :: multiset(r)[p] == if p.category == activeCategory then multiset(projects)[p] else 0
    ensures SubseqOf(r, projects)
  {
    if activeCategory == "all" then
      SubseqRefl(projects);
      projects
    else
      FilterSubseq(projects, InCategory(activeCategory));
      FilterCount(projects, InCategory(activeCategory));
      Filter(projects, InCategory(activeCategory))
  }

  /** The no-projects message shows exactly when the category is not `'all'` and no project has it, or there are no projects. */
  lemma NoProjectsMessage(projects: seq<Project>, activeCategory: string)
    ensures |FilteredProjects(projects, activeCategory)| == 0 <==>
            |projects| == 0 || (activeCategory != "all" && forall p :: p in projects ==> p.category != activeCategory)
  {
    var r := FilteredProjects(projects, activeCategory);
    if activeCategory != "all" && |r| > 0 {
      assert r[0] in r;
    }
    if activeCategory != "all" && |projects| > 0 && exists p :: p in projects && p.category == activeCategory {
      var p :| p in projects && p.category == activeCategory;
      assert p in r;
    }
  }

  /** The cards in the grid, each with its `isActive` flag. */
  function Cards(projects: seq<Project>, activeCategory: string): (cards: seq<(Project, bool)>)
    ensures |cards| == |FilteredProjects(projects, activeCategory)|
    ensures forall i :: 0 <= i < |cards| ==> cards[i].0 == FilteredProjects(projects, activeCategory)[i]
  {
    var shown := FilteredProjects(projects, activeCategory);
    seq(|shown|, i requires 0 <= i < |shown| => (shown[i], activeCategory == shown[i].category))
  }

  /**
   * Under a category every shown card is active; under `'all'` a card is
   * active only if its project's category is literally `all`.
   */
  lemma CardsActive(projects: seq<Project>, activeCategory: string)
    ensures var cards := Cards(projects, activeCategory);
      forall i :: 0 <= i < |cards| ==> (cards[i].1 <==> activeCategory == cards[i].0.category)
    ensures var cards := Cards(projects, activeCategory);
      activeCategory != "all" ==> forall i :: 0 <= i < |cards| ==> cards[i].1
    ensures var cards := Cards(projects, activeCategory);
      activeCategory == "all" && (forall p :: p in projects ==> p.category != "all") ==>
        forall i :: 0 <= i < |cards| ==> !cards[i].1
  {
    var shown := FilteredProjects(projects, activeCategory);
    assert forall i :: 0 <= i < |shown| ==> shown[i] in shown;
  }

  /** The shipped projects give three categories in order, one project each. */
  lemma ShippedCategories()
    ensures Categories(PROJECTS) == ["education", "environment", "healthcare"]
  {
    var cs := ProjectCategories(PROJECTS);
    assert cs == ["education", "environment", "healthcare"];
    UniqueOfDistinct(cs);
  }
}
