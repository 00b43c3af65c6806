/** The feed screen's data and the pure meaning of its two event handlers.

    Every remote call is an outcome parameter. A DELETE is only ever
    awaited, never inspected, so its outcome is whether it threw. A POST's
    outcome is that it threw (the request or `response.json()` failed), or
    the response's `ok` flag with its parsed body. */
module Feed {
  import opened Wrappers
  import opened RelationSet
  import opened Toasts
  import opened Taxonomy

  datatype InteractionType = Like | Dislike

  datatype UserInteraction = UserInteraction(id: int, newsArticle: int, interactionType: InteractionType)

  datatype ReadingListItem = ReadingListItem(id: int, readingList: int)

  /** A feed entry. The counters may be missing from the server's payload. */
  datatype NewsArticle = NewsArticle(
    id: int, title: string, content: string, publicationDate: string,
    totalLikes: Option<int>, totalDislikes: Option<int>,
    userInteractions: seq<UserInteraction>,
    readingListItems: seq<ReadingListItem>,
    tags: seq<Tag>, categories: seq<Category>)

  /** Outcome of an awaited DELETE whose response is never read. */
  datatype DeleteCall = DeleteThrew | DeleteAnswered

  /** Outcome of the POST that creates an interaction. */
  datatype InteractionPost = InteractionPostThrew | InteractionPosted(ok: bool, body: UserInteraction)

  /** Outcome of the POST that creates a reading-list item: it threw, it
      answered `ok` with the new item, or it answered with an error body
      whose `non_field_errors` may be absent. */
  datatype ItemPost = ItemPostThrew | ItemCreated(item: ReadingListItem)
                    | ItemRejected(nonFieldErrors: Option<seq<string>>)

  /** The message the server sends when the (list, article) pair already exists. */
  const UniqueSetMessage: string := "The fields reading_list, news_article must make a unique set."

  const LoginRequiredAlert: string := "Você precisa estar logado para interagir com os artigos."

  const InteractionFailed: Toast := Toast(Error, "Erro")

  // ---------------------------------------------------------------- lookups

  function HasId(id: int): NewsArticle -> bool {
    (a: NewsArticle) => a.id == id
  }

  function ForArticle(articleId: int): UserInteraction -> bool {
    (ui: UserInteraction) => ui.newsArticle == articleId
  }

  function ForList(readingListId: int): ReadingListItem -> bool {
    (item: ReadingListItem) => item.readingList == readingListId
  }

  function InteractionIdIsNot(id: int): UserInteraction -> bool {
    (ui: UserInteraction) => ui.id != id
  }

  function ItemIdIsNot(id: int): ReadingListItem -> bool {
    (item: ReadingListItem) => item.id != id
  }

  /** `total_likes = 0` in a destructuring: a missing counter reads as 0. */
  function OrZero(n: Option<int>): (r: int)
    ensures n.None? ==> r == 0
    ensures n.Some? ==> r == n.value
  {
    n.GetOr(0)
  }

  /** `Math.max(0, n - 1)` */
  function Decrement(n: int): (r: int)
    ensures r >= 0
    ensures n >= 1 ==> r == n - 1
    ensures n <= 1 ==> r == 0
  {
    if n - 1 > 0 then n - 1 else 0
  }

  // ------------------------------------------------------------- reactions

  /** The locals `total_likes`, `total_dislikes` and `user_interactions`
      once every awaited call has returned, or `Threw` when one threw. */
  datatype Reaction = Reconciled(totalLikes: int, totalDislikes: int, interactions: seq<UserInteraction>)
                    | Threw

  /** One counter moved by one step of `kind`. */
  function Bump(likes: int, dislikes: int, kind: InteractionType, up: bool): (int, int) {
    match kind
    case Like => (if up then likes + 1 else Decrement(likes), dislikes)
    case Dislike => (likes, if up then dislikes + 1 else Decrement(dislikes))
  }

  /** What `handleInteraction(articleId, kind)` computes for the article it
      found: toggle-off, switch, or first reaction. */
  function ReactTo(article: NewsArticle, articleId: int, kind: InteractionType,
                   del: DeleteCall, post: InteractionPost): (r: Reaction)
    ensures r.Threw? ==> del.DeleteThrew? || post.InteractionPostThrew?
    ensures r.Reconciled? ==> |r.interactions| <= |article.userInteractions| + 1
    ensures r.Reconciled? ==> forall i :: 0 <= i < |r.interactions| ==>
      r.interactions[i] in article.userInteractions ||
      (post.InteractionPosted? && r.interactions[i] == post.body)
  {
    var likes := OrZero(article.totalLikes);
    var dislikes := OrZero(article.totalDislikes);
    var xs := article.userInteractions;
    match FindFirst(xs, ForArticle(articleId))
    case Some(k) =>
      var existing := xs[k];
      if del.DeleteThrew? then Threw
      else if existing.interactionType == kind then
        var (l, d) := Bump(likes, dislikes, kind, false);
        Reconciled(l, d, Filter(xs, InteractionIdIsNot(existing.id)))
      else
        var (l, d) := Bump(likes, dislikes, existing.interactionType, false);
        var rest := Filter(xs, InteractionIdIsNot(existing.id));
        if post.InteractionPostThrew? then Threw
        else
          var (l', d') := Bump(l, d, kind, true);
          Reconciled(l', d', rest + [post.body])
    case None =>
      if post.InteractionPostThrew? then Threw
      else
        var (l, d) := Bump(likes, dislikes, kind, true);
        Reconciled(l, d, xs + [post.body])
  }

  /** `{ ...currentArticle, total_likes, total_dislikes, user_interactions }` */
  function WithReaction(article: NewsArticle, r: Reaction): (a: NewsArticle)
    requires r.Reconciled?
    ensures a.totalLikes == Some(r.totalLikes) && a.totalDislikes == Some(r.totalDislikes)
    ensures a.userInteractions == r.interactions
    ensures a.(totalLikes := article.totalLikes, totalDislikes := article.totalDislikes,
               userInteractions := article.userInteractions) == article
  {
    article.(totalLikes := Some(r.totalLikes), totalDislikes := Some(r.totalDislikes),
             userInteractions := r.interactions)
  }

  /** The card shows "liked" when some interaction is a like. */
  predicate Liked(a: NewsArticle) {
    exists i :: 0 <= i < |a.userInteractions| && a.userInteractions[i].interactionType == Like
  }

  /** The card shows "disliked" when some interaction is a dislike. */
  predicate Disliked(a: NewsArticle) {
    exists i :: 0 <= i < |a.userInteractions| && a.userInteractions[i].interactionType == Dislike
  }

  /** The local mirror of one user's reaction on an article: every held
      interaction refers to the article, and there is at most one. */
  predicate SingleReaction(a: NewsArticle) {
    |a.userInteractions| <= 1 &&
    forall i :: 0 <= i < |a.userInteractions| ==> a.userInteractions[i].newsArticle == a.id
  }

  // ----------------------------------------------------------- memberships

  /** What `handleAddArticleToReadingList` decides. */
  datatype Membership = Removed(itemId: int) | Added(item: ReadingListItem) | AlreadyAdded | Failed

  /** The decision for `article` and `readingListId`: delete the item held
      for that list, or else create one; a rejection carrying the
      uniqueness message counts as "already added". */
  function ToggleMembership(article: NewsArticle, readingListId: int,
                            del: DeleteCall, post: ItemPost): (m: Membership)
    ensures m.Removed? ==> del.DeleteAnswered?
    ensures m.Added? ==> post == ItemCreated(m.item)
    ensures m.AlreadyAdded? ==> post.ItemRejected? && post.nonFieldErrors.Some? &&
                                UniqueSetMessage in post.nonFieldErrors.value
    ensures InList(article, readingListId) ==>
      (m.Removed? <==> del.DeleteAnswered?) && (m.Failed? <==> del.DeleteThrew?)
    ensures !InList(article, readingListId) ==>
      !m.Removed? && (m.Added? <==> post.ItemCreated?)
  {
    var items := article.readingListItems;
    match FindFirst(items, ForList(readingListId))
    case Some(k) =>
      if del.DeleteThrew? then Failed else Removed(items[k].id)
    case None =>
      match post
      case ItemPostThrew => Failed
      case ItemCreated(item) => Added(item)
      case ItemRejected(errors) =>
        if errors.Some? && UniqueSetMessage in errors.value then AlreadyAdded else Failed
  }

  /** The article's reading-list items after the decision. */
  function ItemsAfter(items: seq<ReadingListItem>, m: Membership): (r: seq<ReadingListItem>)
    ensures m.Removed? ==> forall i :: 0 <= i < |r| ==> r[i].id != m.itemId && r[i] in items
    ensures m.Removed? ==> forall j :: 0 <= j < |items| && items[j].id != m.itemId ==> items[j] in r
    ensures m.Added? ==> |r| == |items| + 1 && r[..|items|] == items && r[|items|] == m.item
    ensures m.AlreadyAdded? || m.Failed? ==> r == items
  {
    match m
    case Removed(itemId) => Filter(items, ItemIdIsNot(itemId))
    case Added(item) => items + [item]
    case _ => items
  }

  /** `prevArticles.map(art => art.id === articleId ? { ...art, reading_list_items } : art)` */
  function ApplyMembership(articles: seq<NewsArticle>, articleId: int, m: Membership): (r: seq<NewsArticle>)
    ensures |r| == |articles|
    ensures forall j :: 0 <= j < |articles| && articles[j].id != articleId ==> r[j] == articles[j]
    ensures forall j :: 0 <= j < |articles| && articles[j].id == articleId ==>
      r[j] == articles[j].(readingListItems := ItemsAfter(articles[j].readingListItems, m))
  {
    if |articles| == 0 then []
    else
      var a := articles[0];
      var a' := if a.id == articleId then a.(readingListItems := ItemsAfter(a.readingListItems, m)) else a;
      [a'] + ApplyMembership(articles[1..], articleId, m)
  }

  /** The toast each decision shows. */
  function MembershipToast(m: Membership): (t: Toast)
    ensures t.kind == Error <==> m.Failed?
    ensures t.kind == Info <==> m.AlreadyAdded?
    ensures t.kind == Success <==> m.Removed? || m.Added?
  {
    match m
    case Removed(_) => Toast(Success, "Removido")
    case Added(_) => Toast(Success, "Sucesso")
    case AlreadyAdded => Toast(Info, "Já Adicionado")
    case Failed => Toast(Error, "Erro")
  }

  const MembershipLoginRequired: Toast := Toast(Error, "Erro")

  /** The article holds an item for this list. */
  predicate InList(a: NewsArticle, readingListId: int) {
    exists i :: 0 <= i < |a.readingListItems| && a.readingListItems[i].readingList == readingListId
  }
}
