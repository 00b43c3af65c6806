/** What the feed screen's two handlers guarantee, stated over their pure
    meaning in module Feed. */
module FeedProperties {
  import opened Wrappers
  import opened RelationSet
  import opened Toasts
  import opened Feed

  /** `k` is where `find(ui => ui.news_article === articleId)` stops. */
  predicate FirstFor(xs: seq<UserInteraction>, articleId: int, k: nat) {
    k < |xs| && xs[k].newsArticle == articleId &&
    forall j :: 0 <= j < k ==> xs[j].newsArticle != articleId
  }

  /** `find(ui => ui.news_article === articleId)` finds nothing. */
  predicate NoneFor(xs: seq<UserInteraction>, articleId: int) {
    forall j :: 0 <= j < |xs| ==> xs[j].newsArticle != articleId
  }

  /** Same kind again: the interaction is deleted by id and only the
      matching counter drops, never below zero. */
  lemma ToggleOff(article: NewsArticle, articleId: int, kind: InteractionType,
                  del: DeleteCall, post: InteractionPost, k: nat)
    requires FirstFor(article.userInteractions, articleId, k)
    requires article.userInteractions[k].interactionType == kind
    requires del.DeleteAnswered?
    ensures var r := ReactTo(article, articleId, kind, del, post);
      r.Reconciled? &&
      r.interactions == Filter(article.userInteractions, InteractionIdIsNot(article.userInteractions[k].id)) &&
      (kind == Like ==> r.totalLikes == Decrement(OrZero(article.totalLikes)) &&
                        r.totalDislikes == OrZero(article.totalDislikes)) &&
      (kind == Dislike ==> r.totalDislikes == Decrement(OrZero(article.totalDislikes)) &&
                           r.totalLikes == OrZero(article.totalLikes))
  {
  }

  /** The other kind: the old interaction is deleted and its counter drops
      (floored at zero), the POSTed body is appended and the requested
      counter rises by one. */
  lemma Switch(article: NewsArticle, articleId: int, kind: InteractionType,
               del: DeleteCall, post: InteractionPost, k: nat)
    requires FirstFor(article.userInteractions, articleId, k)
    requires article.userInteractions[k].interactionType != kind
    requires del.DeleteAnswered? && post.InteractionPosted?
    ensures var r := ReactTo(article, articleId, kind, del, post);
      r.Reconciled? &&
      r.interactions == Filter(article.userInteractions, InteractionIdIsNot(article.userInteractions[k].id)) + [post.body] &&
      (kind == Like ==> r.totalLikes == OrZero(article.totalLikes) + 1 &&
                        r.totalDislikes == Decrement(OrZero(article.totalDislikes))) &&
      (kind == Dislike ==> r.totalDislikes == OrZero(article.totalDislikes) + 1 &&
                           r.totalLikes == Decrement(OrZero(article.totalLikes)))
  {
  }

  /** No interaction for the article yet: the POSTed body is appended and
      only the requested counter rises by one. */
  lemma FirstReaction(article: NewsArticle, articleId: int, kind: InteractionType,
                      del: DeleteCall, post: InteractionPost)
    requires NoneFor(article.userInteractions, articleId)
    requires post.InteractionPosted?
    ensures var r := ReactTo(article, articleId, kind, del, post);
      r.Reconciled? &&
      r.interactions == article.userInteractions + [post.body] &&
      (kind == Like ==> r.totalLikes == OrZero(article.totalLikes) + 1 &&
                        r.totalDislikes == OrZero(article.totalDislikes)) &&
      (kind == Dislike ==> r.totalDislikes == OrZero(article.totalDislikes) + 1 &&
                           r.totalLikes == OrZero(article.totalLikes))
  {
  }

  /** The handler fails exactly when a call it actually makes throws: the
      DELETE whenever an interaction exists, the POST unless it is a
      toggle-off. */
  lemma ReactionFails(article: NewsArticle, articleId: int, kind: InteractionType,
                      del: DeleteCall, post: InteractionPost)
    ensures var found := FindFirst(article.userInteractions, ForArticle(articleId));
      ReactTo(article, articleId, kind, del, post).Threw? <==>
        (found.Some? && del.DeleteThrew?) ||
        (post.InteractionPostThrew? &&
         !(found.Some? && article.userInteractions[found.value].interactionType == kind))
  {
  }

  /** The POST's `ok` flag is never consulted: an error body is appended
      just like a created interaction. */
  lemma OkIgnored(article: NewsArticle, articleId: int, kind: InteractionType,
                  del: DeleteCall, body: UserInteraction)
    ensures ReactTo(article, articleId, kind, del, InteractionPosted(true, body)) ==
            ReactTo(article, articleId, kind, del, InteractionPosted(false, body))
  {
  }

  /** Counters that start non-negative stay non-negative. */
  lemma CountersStayNonNegative(article: NewsArticle, articleId: int, kind: InteractionType,
                                del: DeleteCall, post: InteractionPost)
    requires OrZero(article.totalLikes) >= 0 && OrZero(article.totalDislikes) >= 0
    ensures var r := ReactTo(article, articleId, kind, del, post);
      r.Reconciled? ==> r.totalLikes >= 0 && r.totalDislikes >= 0
  {
  }

  /** A mirror holding at most one interaction, all for this article, keeps
      that shape when the server answers with an interaction for this
      article; it is left empty exactly by a toggle-off, and otherwise holds
      just the POSTed body. */
  lemma AtMostOneReaction(article: NewsArticle, kind: InteractionType,
                                             del: DeleteCall, post: InteractionPost)
    requires SingleReaction(article)
    requires post.InteractionPosted? ==> post.body.newsArticle == article.id
    ensures var r := ReactTo(article, article.id, kind, del, post);
      r.Reconciled? ==>
        SingleReaction(WithReaction(article, r)) &&
        (|r.interactions| == 0 <==>
           |article.userInteractions| == 1 && article.userInteractions[0].interactionType == kind) &&
        (|r.interactions| == 1 ==> r.interactions == [post.body])
  {
  }

  /** What the card shows afterwards, when the server answers with an
      interaction of the requested kind for this article: the requested
      kind, unless the tap toggled it off, and never the other kind. */
  lemma CardShowsReaction(article: NewsArticle, kind: InteractionType,
                          del: DeleteCall, post: InteractionPost)
    requires SingleReaction(article)
    requires post.InteractionPosted? ==>
      post.body.newsArticle == article.id && post.body.interactionType == kind
    ensures var r := ReactTo(article, article.id, kind, del, post);
      var toggledOff := |article.userInteractions| == 1 && article.userInteractions[0].interactionType == kind;
      r.Reconciled? ==>
        (Liked(WithReaction(article, r)) <==> kind == Like && !toggledOff) &&
        (Disliked(WithReaction(article, r)) <==> kind == Dislike && !toggledOff)
  {
    AtMostOneReaction(article, kind, del, post);
    var r := ReactTo(article, article.id, kind, del, post);
    if r.Reconciled? && |r.interactions| == 1 {
      assert WithReaction(article, r).userInteractions[0] == post.body;
    }
  }

  /** The same kind twice, starting from no reaction, with the server
      answering a fresh interaction for this article: the mirror and both
      counters are back where they started. */
  lemma ReactTwice(article: NewsArticle, kind: InteractionType, ok: bool,
                   body: UserInteraction, post2: InteractionPost)
    requires NoneFor(article.userInteractions, article.id)
    requires body.newsArticle == article.id && body.interactionType == kind
    requires forall j :: 0 <= j < |article.userInteractions| ==> article.userInteractions[j].id != body.id
    requires OrZero(article.totalLikes) >= 0 && OrZero(article.totalDislikes) >= 0
    ensures var r1 := ReactTo(article, article.id, kind, DeleteAnswered, InteractionPosted(ok, body));
      var a1 := WithReaction(article, r1);
      ReactTo(a1, a1.id, kind, DeleteAnswered, post2) ==
        Reconciled(OrZero(article.totalLikes), OrZero(article.totalDislikes), article.userInteractions)
  {
    var xs := article.userInteractions;
    FirstReaction(article, article.id, kind, DeleteAnswered, InteractionPosted(ok, body));
    var r1 := ReactTo(article, article.id, kind, DeleteAnswered, InteractionPosted(ok, body));
    var a1 := WithReaction(article, r1);
    assert a1.userInteractions == xs + [body];
    assert FirstFor(a1.userInteractions, a1.id, |xs|);
    ToggleOff(a1, a1.id, kind, DeleteAnswered, post2, |xs|);
    var keep := InteractionIdIsNot(body.id);
    FilterAppend(xs, [body], keep);
    assert !keep(body) && [body][1..] == [];
    assert Filter([body], keep) == [];
    FilterKeepsAll(xs, keep);
  }

  /** An article with 5 likes and 2 dislikes: a like, the same like
      again, then a dislike. */
  lemma LikeLikeDislike(article: NewsArticle, first: UserInteraction, second: UserInteraction)
    requires article.totalLikes == Some(5) && article.totalDislikes == Some(2)
    requires article.userInteractions == []
    requires first.newsArticle == article.id && first.interactionType == Like
    requires second.newsArticle == article.id && second.interactionType == Dislike
    ensures var r1 := ReactTo(article, article.id, Like, DeleteAnswered, InteractionPosted(true, first));
      var a1 := WithReaction(article, r1);
      var r2 := ReactTo(a1, a1.id, Like, DeleteAnswered, InteractionPosted(true, first));
      var a2 := WithReaction(a1, r2);
      var r3 := ReactTo(a2, a2.id, Dislike, DeleteAnswered, InteractionPosted(true, second));
      var a3 := WithReaction(a2, r3);
      a1.totalLikes == Some(6) && a1.totalDislikes == Some(2) && a1.userInteractions == [first] &&
      a2.totalLikes == Some(5) && a2.totalDislikes == Some(2) && a2.userInteractions == [] &&
      a3.totalLikes == Some(5) && a3.totalDislikes == Some(3) && a3.userInteractions == [second]
  {
  }

  // ----------------------------------------------------------- memberships

  predicate FirstItemFor(items: seq<ReadingListItem>, readingListId: int, k: nat) {
    k < |items| && items[k].readingList == readingListId &&
    forall j :: 0 <= j < k ==> items[j].readingList != readingListId
  }

  /** Held for the list: the item is deleted by id and "removed" is shown. */
  lemma MembershipRemoves(article: NewsArticle, readingListId: int,
                          del: DeleteCall, post: ItemPost, k: nat)
    requires FirstItemFor(article.readingListItems, readingListId, k)
    requires del.DeleteAnswered?
    ensures var m := ToggleMembership(article, readingListId, del, post);
      m == Removed(article.readingListItems[k].id) &&
      MembershipToast(m) == Toast(Success, "Removido")
  {
  }

  /** Not held for the list: the answer to the POST decides, and the
      uniqueness rejection is informational. */
  lemma MembershipCreates(article: NewsArticle, readingListId: int,
                          del: DeleteCall, post: ItemPost)
    requires !InList(article, readingListId)
    ensures var m := ToggleMembership(article, readingListId, del, post);
      (post.ItemCreated? ==> m == Added(post.item) && MembershipToast(m) == Toast(Success, "Sucesso")) &&
      (post.ItemRejected? && post.nonFieldErrors.Some? && UniqueSetMessage in post.nonFieldErrors.value ==>
         m == AlreadyAdded && MembershipToast(m) == Toast(Info, "Já Adicionado")) &&
      (post.ItemPostThrew? ||
       (post.ItemRejected? && !(post.nonFieldErrors.Some? && UniqueSetMessage in post.nonFieldErrors.value)) ==>
         m == Failed && MembershipToast(m).kind == Error)
  {
  }

  /** Held for the list but the DELETE throws: the catch shows the error
      toast and the feed is left exactly as it was. */
  lemma MembershipDeleteThrows(articles: seq<NewsArticle>, article: NewsArticle,
                               readingListId: int, post: ItemPost)
    requires InList(article, readingListId)
    ensures var m := ToggleMembership(article, readingListId, DeleteThrew, post);
      m == Failed && MembershipToast(m) == Toast(Error, "Erro") &&
      ApplyMembership(articles, article.id, m) == articles
  {
  }

  /** Only a removal or an addition changes the feed; "already added" and
      every failure leave it exactly as it was. */
  lemma NoChangeUnlessDecided(articles: seq<NewsArticle>, articleId: int, m: Membership)
    requires m.AlreadyAdded? || m.Failed?
    ensures ApplyMembership(articles, articleId, m) == articles
  {
  }

  /** Added then removed again: "not in this list" is restored, and when
      the new item's id was not already used the article is exactly as
      before. */
  lemma MembershipTwice(articles: seq<NewsArticle>, j: nat, readingListId: int, item: ReadingListItem)
    requires j < |articles| && !InList(articles[j], readingListId)
    requires item.readingList == readingListId
    ensures var a := articles[j];
      var m1 := ToggleMembership(a, readingListId, DeleteAnswered, ItemCreated(item));
      var s1 := ApplyMembership(articles, a.id, m1);
      var m2 := ToggleMembership(s1[j], readingListId, DeleteAnswered, ItemCreated(item));
      var s2 := ApplyMembership(s1, s1[j].id, m2);
      m1 == Added(item) && m2 == Removed(item.id) &&
      !InList(s2[j], readingListId) &&
      ((forall i :: 0 <= i < |a.readingListItems| ==> a.readingListItems[i].id != item.id) ==> s2[j] == a)
  {
    var a := articles[j];
    var items := a.readingListItems;
    MembershipCreates(a, readingListId, DeleteAnswered, ItemCreated(item));
    var s1 := ApplyMembership(articles, a.id, Added(item));
    var a1 := s1[j];
    assert a1.readingListItems == items + [item];
    assert FirstItemFor(a1.readingListItems, readingListId, |items|) by {
      forall i | 0 <= i < |items|
        ensures a1.readingListItems[i].readingList != readingListId
      {
        assert a1.readingListItems[i] == items[i];
      }
    }
    MembershipRemoves(a1, readingListId, DeleteAnswered, ItemCreated(item), |items|);
    var s2 := ApplyMembership(s1, a1.id, Removed(item.id));
    var keep := ItemIdIsNot(item.id);
    FilterAppend(items, [item], keep);
    assert !keep(item) && [item][1..] == [];
    assert Filter([item], keep) == [];
    var left := Filter(items, keep);
    assert s2[j].readingListItems == left;
    if (forall i :: 0 <= i < |items| ==> items[i].id != item.id) {
      FilterKeepsAll(items, keep);
    }
  }
}
