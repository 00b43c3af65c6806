/** The feed screen's state and its two event handlers. `articles` is the
    screen's article list, `toasts` and `alerts` log what the user is shown,
    and each remote call's outcome is a parameter. */
module HomeScreenState {
  import opened Wrappers
  import opened RelationSet
  import opened Toasts
  import opened Feed
  import opened FeedProperties

  class HomeScreen {
    var userToken: Option<string>
    var articles: seq<NewsArticle>
    var toasts: seq<Toast>
    var alerts: seq<string>

    constructor (userToken: Option<string>, articles: seq<NewsArticle>)
      ensures this.userToken == userToken && this.articles == articles
      ensures toasts == [] && alerts == []
    {
      this.userToken := userToken;
      this.articles := articles;
      toasts := [];
      alerts := [];
    }

    /** `userToken` is truthy. */
    predicate SignedIn()
      reads this
    {
      userToken.Some? && userToken.value != ""
    }

    /** Every article mirrors at most one reaction, for itself. */
    predicate SingleReactions()
      reads this
    {
      forall i :: 0 <= i < |articles| ==> SingleReaction(articles[i])
    }

    /** Like or dislike `articleId`: toggle off a reaction of the same kind,
        switch one of the other kind, or create the first one. The article
        is written back only once every call has returned; a throw anywhere
        leaves `articles` alone and shows the error toast. */
    method HandleInteraction(articleId: int, kind: InteractionType,
                             del: DeleteCall, post: InteractionPost)
      modifies this
      ensures userToken == old(userToken)
      ensures !old(SignedIn()) ==>
        articles == old(articles) && toasts == old(toasts) && alerts == old(alerts) + [LoginRequiredAlert]
      ensures old(SignedIn()) ==> alerts == old(alerts)
      ensures old(SignedIn()) && FindFirst(old(articles), HasId(articleId)).None? ==>
        articles == old(articles) && toasts == old(toasts)
      ensures old(SignedIn()) && FindFirst(old(articles), HasId(articleId)).Some? ==>
        var i := FindFirst(old(articles), HasId(articleId)).value;
        var r := ReactTo(old(articles)[i], articleId, kind, del, post);
        if r.Threw? then articles == old(articles) && toasts == old(toasts) + [InteractionFailed]
        else articles == old(articles)[i := WithReaction(old(articles)[i], r)] && toasts == old(toasts)
      ensures old(SingleReactions()) && (post.InteractionPosted? ==> post.body.newsArticle == articleId) ==>
        SingleReactions()
    {
      if !SignedIn() {
        alerts := alerts + [LoginRequiredAlert];
        return;
      }
      var found := FindFirst(articles, HasId(articleId));
      if found.None? {
        return;
      }
      var articleIndex := found.value;
      var currentArticle := articles[articleIndex];
      var totalLikes := OrZero(currentArticle.totalLikes);
      var totalDislikes := OrZero(currentArticle.totalDislikes);
      var userInteractions := currentArticle.userInteractions;

      var existing := FindFirst(userInteractions, ForArticle(articleId));
      if existing.Some? {
        var existingInteraction := userInteractions[existing.value];
        if existingInteraction.interactionType == kind {
          if del.DeleteThrew? {
            toasts := toasts + [InteractionFailed];
            return;
          }
          if kind == Like {
            totalLikes := Decrement(totalLikes);
          } else {
            totalDislikes := Decrement(totalDislikes);
          }
          userInteractions := Filter(userInteractions, InteractionIdIsNot(existingInteraction.id));
        } else {
          if del.DeleteThrew? {
            toasts := toasts + [InteractionFailed];
            return;
          }
          if existingInteraction.interactionType == Like {
            totalLikes := Decrement(totalLikes);
          } else {
            totalDislikes := Decrement(totalDislikes);
          }
          userInteractions := Filter(userInteractions, InteractionIdIsNot(existingInteraction.id));
          if post.InteractionPostThrew? {
            toasts := toasts + [InteractionFailed];
            return;
          }
          if kind == Like {
            totalLikes := totalLikes + 1;
          } else {
            totalDislikes := totalDislikes + 1;
          }
          userInteractions := userInteractions + [post.body];
        }
      } else {
        if post.InteractionPostThrew? {
          toasts := toasts + [InteractionFailed];
          return;
        }
        if kind == Like {
          totalLikes := totalLikes + 1;
        } else {
          totalDislikes := totalDislikes + 1;
        }
        userInteractions := userInteractions + [post.body];
      }

      ghost var r := ReactTo(currentArticle, articleId, kind, del, post);
      assert r == Reconciled(totalLikes, totalDislikes, userInteractions);
      articles := articles[articleIndex := currentArticle.(totalLikes := Some(totalLikes),
                                                           totalDislikes := Some(totalDislikes),
                                                           userInteractions := userInteractions)];
      if old(SingleReactions()) && (post.InteractionPosted? ==> post.body.newsArticle == articleId) {
        AtMostOneReaction(currentArticle, kind, del, post);
        assert SingleReaction(articles[articleIndex]);
      }
    }

    /** Add `article` to, or remove it from, the reading list
        `readingListId`, then show the matching toast. Only a confirmed
        removal or creation changes `articles`, and then only the entries
        with the article's id. */
    method HandleAddArticleToReadingList(article: NewsArticle, readingListId: int,
                                         del: DeleteCall, post: ItemPost)
      modifies this
      ensures userToken == old(userToken) && alerts == old(alerts)
      ensures !old(SignedIn()) ==>
        articles == old(articles) && toasts == old(toasts) + [MembershipLoginRequired]
      ensures old(SignedIn()) ==>
        var m := ToggleMembership(article, readingListId, del, post);
        articles == ApplyMembership(old(articles), article.id, m) &&
        toasts == old(toasts) + [MembershipToast(m)]
    {
      if !SignedIn() {
        toasts := toasts + [MembershipLoginRequired];
        return;
      }
      var m := ToggleMembership(article, readingListId, del, post);
      toasts := toasts + [MembershipToast(m)];
      articles := ApplyMembership(articles, article.id, m);
    }
  }
}
