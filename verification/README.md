# Anvil presentation core in Dafny

A model of three pieces of the Anvil CMS (PHP):

- **View finder** (`Anvil\View\FileViewFinder`): a view identifier `module::name`
  is split into a module and a view name. The finder keeps a themes root, a
  modules root and registered locations. From these it builds an ordered list
  of candidate directories: registered locations first, then for a module view
  the theme's `views/partials/<module>` override and the module's own
  `<module>/views`, and for a plain view the theme's `views/` directory. The
  search tries each directory with the extensions `php` then `blade.php` and
  returns the first file that exists.
- **Menu composition** (`Anvil\Menu\Menu`): a menu's links are filtered by an
  inclusive power range. They are then folded, in order, into a tree. Each link
  goes under the node carrying its parent id, or under the root when there is
  no such node yet. Every node that gains a child gets six fixed dropdown
  attributes.
- **Page breadcrumbs** (`PagePlugin`): an append-only list of crumbs whose links
  are rewritten into urls, and a read that can put an "Admin" or "Home" crumb
  first.

Everything is pure functions over immutable records:

- The finder's setters return the updated `Finder`.
- The active theme and the filesystem's existence test are parameters. The
  test is a `(directory, name, extension) -> bool` oracle.
- The link database is a `map` from menu slug to links in query order.
- `URL::to`, `URL::base` and `App::isAdmin` are the fields of a `UrlEnv`.

Modules: `Wrappers` (Option), `Strings` (`rtrim`, `strpos`, `explode`),
`ViewFinder`, `MenuTree` (nodes, paths, lookup, attaching), `Menu` (links,
power filter, fold), `Page`.

Three details of the code that the model follows:

- The code has no separate filter pass after the database query. The power
  range is the query's `where` clauses, modelled by `FilterByPower`.
- The code's "view not found" failure carries only the view name.
- Candidate directories are plain concatenations of the normalised roots. The
  theme directory is `<themes root><theme>/`.

Some members are plain definitions of accessors and single steps. They carry
no contract of their own and are read through the members listed below:

- `ViewFinder.CurrentThemePath` (`currentThemePath`) through
  `ViewFinder.GeneratePaths`, whose entries spell the theme directory out.
- `Menu.NewItem` and `Menu.Step` (one iteration of `populateMenu`) through
  `Menu.StepCounts` and `Menu.StepEffect`.
- `Page.HasBreadcrumbs` through `Page.HasBreadcrumbsAfterAdd`.
- `Page.Title` and `Page.Content` (`title()`, `content()`) through
  `Page.AddBreadcrumb`, which keeps both fields.
- `Page.BaseCrumb` through `Page.Breadcrumbs`, which states the admin and
  home cases.

## Model

| member | source | states |
|---|---|---|
| Strings.RTrim | anvil/src/Anvil/View/FileViewFinder.php:66 | the result is a prefix of the input that does not end in the character, and only that character was removed |
| Strings.IndexOf | anvil/src/Anvil/View/FileViewFinder.php:115 | finds an index iff the separator occurs; the index is an occurrence with none before it |
| Strings.Explode | anvil/src/Anvil/View/FileViewFinder.php:117 | at least one piece; exactly one piece iff the separator does not occur |
| Strings.JoinExplode | anvil/src/Anvil/View/FileViewFinder.php:117 | joining the pieces of `explode` with the separator gives back the input |
| Strings.ExplodePiecesAreSeparatorFree | anvil/src/Anvil/View/FileViewFinder.php:117 | no piece of `explode` contains the separator |
| ViewFinder.NormalizeDirectory | anvil/src/Anvil/View/FileViewFinder.php:66 | the result ends in exactly one `/`; before it is the input's text, and only slashes of the input were dropped |
| ViewFinder.NormalizeDirectoryIdempotent | anvil/src/Anvil/View/FileViewFinder.php:64-67 | normalising twice is normalising once |
| ViewFinder.DirectoryIsNormal | anvil/src/Anvil/View/FileViewFinder.php:64-67 | a path that already ends in exactly one `/` is unchanged |
| ViewFinder.SetThemePath | anvil/src/Anvil/View/FileViewFinder.php:64-67 | the stored themes root ends in a single `/`, equals the argument up to trailing slashes; the modules root and locations are untouched |
| ViewFinder.SetModulePath | anvil/src/Anvil/View/FileViewFinder.php:75-78 | same normalisation for the modules root; the themes root and locations are untouched |
| ViewFinder.SetPathsIdempotent | anvil/src/Anvil/View/FileViewFinder.php:64-78 | setting either root again to its stored value is a no-op |
| ViewFinder.AddLocation | anvil/src/Anvil/View/FileViewFinder.php:159-162 | one location is appended at the end; earlier locations and both roots are unchanged |
| ViewFinder.Prepare | anvil/src/Anvil/View/FileViewFinder.php:111-121 | no module iff the identifier has no `::`, and then the name is unchanged; otherwise the module is the text before the first `::` (possibly empty) and the name the text up to the next `::` or the end |
| ViewFinder.PrepareIsExplode | anvil/src/Anvil/View/FileViewFinder.php:115-118 | with `::` present, module and name are the first two pieces of `explode('::', …)` |
| ViewFinder.PrepareOfJoined | anvil/src/Anvil/View/FileViewFinder.php:111-121 | `m::v` splits back into `m` and `v` when neither holds `::` and `m` does not end in `:` |
| ViewFinder.TrailingColonModuleShifts | anvil/src/Anvil/View/FileViewFinder.php:117 | `a:` + `::` + `v` splits as module `a` and view `:v`, because `explode` splits at the leftmost `::` |
| ViewFinder.GeneratePaths | anvil/src/Anvil/View/FileViewFinder.php:129-151 | the registered locations come first, unchanged; then for module `m`: `<theme dir>views/partials/m`, then `<modules root>m/views` (two more entries); without a module: `<theme dir>views/` (one more entry) |
| ViewFinder.AddedLocationPrecedesFallbacks | anvil/src/Anvil/View/FileViewFinder.php:129-162 | after `addLocation`, the new location sits after the older locations and before every theme or module directory |
| ViewFinder.FirstExtension | anvil/src/Anvil/View/FileViewFinder.php:43 | the first extension, in list order, under which the file exists; none only if no extension gives a file |
| ViewFinder.FirstHit | anvil/src/Anvil/View/FileViewFinder.php:102 | the first (directory, extension) pair, directories outermost, under which the file exists; none only if no pair does |
| ViewFinder.FindInPaths | anvil/src/Anvil/View/FileViewFinder.php:102 | a found file is the first (directory, extension) pair under which the file exists: every earlier directory misses under every extension, and its own directory misses under every earlier extension; "not found" iff no candidate has the file under any extension |
| ViewFinder.Find | anvil/src/Anvil/View/FileViewFinder.php:98-103 | `find` fails iff none of the directories generated for the prepared module holds the prepared name; otherwise it returns the first (directory, extension) pair among them that holds it |
| ViewFinder.RegisteredLocationWins | anvil/src/Anvil/View/FileViewFinder.php:30-36 | if registered location `k` holds the view, the result comes from locations `0..k`, never from the theme or module directories |
| ViewFinder.ThemePartialOverridesModuleView | anvil/src/Anvil/View/FileViewFinder.php:133-141 | when no registered location holds `v`, a theme partial for `m::v` under any recognised extension is returned, under its first extension, whatever the module's own views hold |
| ViewFinder.ModuleViewFallsBackToModule | anvil/src/Anvil/View/FileViewFinder.php:133-141 | when neither a registered location nor the theme partials directory holds `v`, it is returned from `<modules root>m/views`, under its first extension |
| ViewFinder.FoundInFirstHoldingFallback | anvil/src/Anvil/View/FileViewFinder.php:98-103 | the search for `m::v` ends in the first generated candidate that holds `v`, under the first extension it exists with there |
| ViewFinder.PlainViewSearchesThemeViews | anvil/src/Anvil/View/FileViewFinder.php:143-148 | a view without module fails iff neither a registered location nor `<theme dir>views/` holds it |
| MenuTree.Decorate | anvil/src/Anvil/Menu/Menu.php:124-129 | the six dropdown attributes hold their fixed values; every other attribute is kept |
| MenuTree.DecorateIdempotent | anvil/src/Anvil/Menu/Menu.php:124-129 | re-decorating a decorated node changes nothing |
| MenuTree.AttachAt | anvil/src/Anvil/Menu/Menu.php:117-129 | the root keeps its id, title and url; it gains a child only when it is the attachment point |
| MenuTree.FindFrom | anvil/src/Anvil/Menu/Menu.php:149-152 | a returned path leads to a node with the sought id; none iff no node in the searched children carries it |
| MenuTree.Find | anvil/src/Anvil/Menu/Menu.php:149-152 | a node below the root with the sought id is found iff one exists |
| MenuTree.AttachKeepsOtherNodes | anvil/src/Anvil/Menu/Menu.php:117-129 | existing nodes keep their path, id, title and url; all but the attachment point keep their attributes and child count |
| MenuTree.AttachAtTarget | anvil/src/Anvil/Menu/Menu.php:117-129 | the attachment point gets the new node as its last child and carries the dropdown attributes |
| MenuTree.AttachNewPaths | anvil/src/Anvil/Menu/Menu.php:117-121 | the only new paths after attaching lead into the new child |
| MenuTree.AttachSize | anvil/src/Anvil/Menu/Menu.php:117-121 | attaching adds exactly the new child's nodes |
| MenuTree.AttachIds | anvil/src/Anvil/Menu/Menu.php:117-121 | attaching adds exactly the new child's link ids |
| MenuTree.AttachKeepsWellDecorated | anvil/src/Anvil/Menu/Menu.php:117-129 | if exactly the nodes with children were dropdowns before, the same holds after |
| Menu.FilterByPower | anvil/src/Anvil/Menu/Menu.php:68-86 | no power keeps every link; power `p` keeps exactly the links with `required_power` null or `<= p` and `max_power` null or `>= p` |
| Menu.FilterByPowerAppend | anvil/src/Anvil/Menu/Menu.php:68-86 | filtering distributes over concatenation, so kept links stay in query order |
| Menu.FetchLinks | anvil/src/Anvil/Menu/Menu.php:64-102 | an unknown menu yields no links; a known menu yields its links, all of them without power, the admitted ones with power |
| Menu.ParentOf | anvil/src/Anvil/Menu/Menu.php:142-164 | the root iff the parent id is null or no node below the root carries it; otherwise a node with that id |
| Menu.StepCounts | anvil/src/Anvil/Menu/Menu.php:113-129 | one iteration adds one node with the link's id and keeps the menu well decorated |
| Menu.Populate | anvil/src/Anvil/Menu/Menu.php:111-133 | one new node per link; the ids below the root grow by exactly the link ids; well-decorated menus stay so; no links leave the menu unchanged |
| Menu.GetMenu | anvil/src/Anvil/Menu/Menu.php:45-55 | an unknown menu returns the factory's menu unchanged; otherwise one node is added per fetched link |
| Menu.PopulateSnoc | anvil/src/Anvil/Menu/Menu.php:113 | links are processed left to right, one iteration each |
| Menu.ParentResolution | anvil/src/Anvil/Menu/Menu.php:142-164 | link `k` goes under the root iff it has no parent id or neither the initial menu nor links `0..k-1` carry that id; otherwise under a node with that id |
| Menu.SelfParentGoesToRoot | anvil/src/Anvil/Menu/Menu.php:146-161 | a link naming itself as parent, with no earlier holder of its id, goes under the root |
| Menu.StepEffect | anvil/src/Anvil/Menu/Menu.php:115-129 | the new node (title, url, `li.id` = link id, no children) is the parent's last child; the parent's earlier children stay in place; the parent is a dropdown, unchanged if it already was; other nodes keep attributes and child count |
| Menu.PopulateKeepsEarlierNodes | anvil/src/Anvil/Menu/Menu.php:111-133 | a node present after `j` links stays at its path with its id, and stays a dropdown, after all links, so siblings appear in input order |
| Menu.PopulateEmptyMenu | anvil/src/Anvil/Menu/Menu.php:111-133 | from an empty root: one node per link plus the root; exactly the nodes with children are dropdowns; the root is one when there is any link |
| Menu.TwoLevelExample | anvil/src/Anvil/Menu/Menu.php:111-164 | links A (top level) and B (parent A): the root has the single child A, a dropdown, whose single child is B |
| Page.ResolveLink | modules/page/plugin.php:52-58 | null stays null; a link with a `.` is kept; `/` becomes the base url; any other link becomes `URL::to(link)` |
| Page.AddBreadcrumb | modules/page/plugin.php:50-61 | one crumb is appended with the name and the rewritten link; earlier crumbs, title, content and layout are unchanged |
| Page.Breadcrumbs | modules/page/plugin.php:137-159 | without the base crumb, the stored list; with it, one crumb followed by the stored list: "Admin" with `URL::to('admin')` in the admin, otherwise "Home" with the base url |
| Page.HasBreadcrumbsAfterAdd | modules/page/plugin.php:127-130 | a page has crumbs after any `addBreadcrumb`, and has crumbs iff the plain read is non-empty |
| Page.ReadAfterAdd | modules/page/plugin.php:50-61 | reading after adding gives the earlier read followed by the new crumb, with or without the base crumb |
| Page.ResolvedUrlIsStable | modules/page/plugin.php:52-57 | a link that comes out of the rewrite with a `.` is not rewritten again |

## Left out

- The body of the inherited `findInPaths` is not modelled. It comes from Illuminate's `FileViewFinder`, which is not part of this model. Its probing of `directory/name.extension`, the dot-to-slash translation of view names and the exception message are left out. The search is modelled only as the first (directory, extension) pair accepted by an existence oracle, over the extension list `php`, `blade.php`.
- `Application::getTheme` and filesystem access are not modelled; the theme name and the existence oracle are parameters.
- The `FileViewFinder` constructor is not modelled; a finder whose roots are unset (PHP `null`) is a `Finder` whose roots are the empty string, which is how `null` concatenates.
- `addNamespace` is a deliberate no-op in the source.
- The Eloquent query (`MenuModel::with`, `where('slug', …)->first()`), caching and HTML rendering by the external menu factory are not modelled. The store is a map from slug to links, so a slug names at most one menu.
- `Menu::filter` is not modelled: it only forwards a callback to the external factory.
- MenuTree.Find: the depth and order semantics of the external `$menu->get(callback)` are not visible. The model searches the nodes below the root in pre-order and takes the first match. This choice only matters when two nodes of the menu carry the same id, whether they come from links or from the factory's initial menu.
- MenuTree.Find: PHP's loose `==` between `$item['id']` and `parent_id` is modelled as equality of integer ids.
- The menu handed out by `$this->factory->get($name)` is a parameter of `GetMenu`, not built by the model.
- `PagePlugin`'s constructor (`Settings::get`), `setContent` (`View::make`), `render` (file include), `isHome` (router) and `loadTime` (clock and float rounding) are not modelled. The page's content is abstracted to an optional string.
- Page.HasBreadcrumbsAfterAdd: states `hasBreadcrumbs` through the plain read and after an add. It does not state it directly as PHP's `!empty` on the stored array, which is the function's own definition.
- Concurrency and the configuration-phase/request-phase split are not modelled: every operation is a pure function.
