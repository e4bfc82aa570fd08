/** The page plugin's breadcrumb and page-field bookkeeping
    (modules/page/plugin.php). `URL::to`, `URL::base` and `App::isAdmin`
    are the fields of an environment record. */
module Page {
  import opened Wrappers

  /** The url generator and the admin flag the plugin consults. */
  datatype UrlEnv = UrlEnv(base: string, to: string -> string, isAdmin: bool)

  /** A breadcrumb: a name and an optional link. */
  datatype Crumb = Crumb(name: string, link: Option<string>)

  /** The plugin's stored state. `content` is the rendered view, abstracted
      to its text. */
  datatype PageState = PageState(layout: string, title: string,
                                 breadcrumbs: seq<Crumb>, content: Option<string>)

  /** The rewrite `addBreadcrumb` applies to a link: a link without a `.` is
      a route, turned into a url (`/` into the base url); a link with a `.`
      is already a url and is kept; no link stays no link. */
  function ResolveLink(env: UrlEnv, link: Option<string>): (r: Option<string>)
    ensures r.None? <==> link.None?
    ensures link.Some? && '.' in link.value ==> r == link
    ensures link == Some("/") ==> r == Some(env.base)
    ensures link.Some? && '.' !in link.value && link.value != "/" ==> r == Some(env.to(link.value))
  {
    match link
    case None => None
    case Some(s) =>
      if '.' in s then link
      else if s == "/" then Some(env.base)
      else Some(env.to(s))
  }

  /** `addBreadcrumb`: appends one crumb and changes nothing else. */
  function AddBreadcrumb(p: PageState, env: UrlEnv, name: string, link: Option<string>): (q: PageState)
    ensures |q.breadcrumbs| == |p.breadcrumbs| + 1
    ensures q.breadcrumbs[..|p.breadcrumbs|] == p.breadcrumbs
    ensures q.breadcrumbs[|p.breadcrumbs|].name == name
    ensures q.breadcrumbs[|p.breadcrumbs|].link == ResolveLink(env, link)
    ensures q.layout == p.layout && q.title == p.title && q.content == p.content
  {
    p.(breadcrumbs := p.breadcrumbs + [Crumb(name, ResolveLink(env, link))])
  }

  /** `hasBreadcrumbs`: whether any crumb has been added. */
  function HasBreadcrumbs(p: PageState): bool {
    p.breadcrumbs != []
  }

  /** `title()`: the stored title. */
  function Title(p: PageState): string {
    p.title
  }

  /** `content()`: the stored content. */
  function Content(p: PageState): Option<string> {
    p.content
  }

  /** The crumb `breadcrumbs(true)` puts first: the admin area inside the
      admin, the home page elsewhere. */
  function BaseCrumb(env: UrlEnv): Crumb
  {
    if env.isAdmin then Crumb("Admin", Some(env.to("admin")))
    else Crumb("Home", Some(env.base))
  }

  /** `breadcrumbs($addBaseBreadcrumb)`: the stored crumbs, with the base
      crumb in front when asked for. Reading does not change the page. */
  function Breadcrumbs(p: PageState, env: UrlEnv, addBase: bool): (r: seq<Crumb>)
    ensures !addBase ==> r == p.breadcrumbs
    ensures addBase ==> |r| == |p.breadcrumbs| + 1 && r[1..] == p.breadcrumbs
    ensures addBase && env.isAdmin ==> r[0] == Crumb("Admin", Some(env.to("admin")))
    ensures addBase && !env.isAdmin ==> r[0] == Crumb("Home", Some(env.base))
  {
    if addBase then [BaseCrumb(env)] + p.breadcrumbs else p.breadcrumbs
  }

  /** After any crumb is added the page has crumbs, and it has crumbs
      exactly when the list read without the base crumb is non-empty. */
  lemma HasBreadcrumbsAfterAdd(p: PageState, env: UrlEnv, name: string, link: Option<string>)
    ensures HasBreadcrumbs(AddBreadcrumb(p, env, name, link))
    ensures HasBreadcrumbs(p) <==> |Breadcrumbs(p, env, false)| > 0
  {
  }

  /** Adding a crumb then reading gives what reading before gave, followed
      by the new crumb, with or without the base crumb. */
  lemma ReadAfterAdd(p: PageState, env: UrlEnv, name: string, link: Option<string>, addBase: bool)
    ensures Breadcrumbs(AddBreadcrumb(p, env, name, link), env, addBase)
            == Breadcrumbs(p, env, addBase) + [Crumb(name, ResolveLink(env, link))]
  {
  }

  /** A link is rewritten at most once: a rewritten link that comes back
      with a `.` (a full url) is kept as it is when added again. */
  lemma ResolvedUrlIsStable(env: UrlEnv, link: Option<string>)
    requires match ResolveLink(env, link)
             case Some(u) => '.' in u
             case None => true
    ensures ResolveLink(env, ResolveLink(env, link)) == ResolveLink(env, link)
  {
  }
}
