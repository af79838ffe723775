/**
 * The detail page of one ad (src/pages/AdDetail.tsx): the rules that decide
 * whether a rejection is sent and with which reason, the request-changes and
 * approve actions, the cache keys invalidated after a moderation succeeds, the
 * previous/next neighbours of the ad in the full list, and the colour and text
 * shown for each moderation history entry.
 */
module AdDetail {
  import opened Wrappers
  import opened Js
  import opened Types
  import opened ApiClient
  import opened Gateway

  // ================================================================ rejection reasons

  datatype RejectionReason = RejectionReason(id: string, caption: string)

  /** The reasons the rejection dialog offers, in order. */
  const RejectionReasons: seq<RejectionReason> := [
    RejectionReason("prohibited", "Запрещённый товар"),
    RejectionReason("wrong_category", "Неверная категория"),
    RejectionReason("incorrect_description", "Некорректное описание"),
    RejectionReason("photo_issues", "Проблемы с фото"),
    RejectionReason("fraud_suspicion", "Подозрение на мошенничество"),
    RejectionReason("other", "Другое")
  ]

  /** `reasons.find((r) => r.id === id)?.label`. */
  function FindLabel(reasons: seq<RejectionReason>, id: string): (r: Option<string>)
    ensures r.None? <==> forall k :: 0 <= k < |reasons| ==> reasons[k].id != id
    ensures r.Some? ==> exists k :: 0 <= k < |reasons| && reasons[k].id == id && reasons[k].caption == r.value
                                    && forall j :: 0 <= j < k ==> reasons[j].id != id
  {
    if reasons == [] then None
    else if reasons[0].id == id then Some(reasons[0].caption)
    else
      var r := FindLabel(reasons[1..], id);
      assert r.Some? ==> exists k :: 0 <= k < |reasons| && reasons[k].id == id && reasons[k].caption == r.value
                                     && forall j :: 0 <= j < k ==> reasons[j].id != id by {
        if r.Some? {
          var k :| 0 <= k < |reasons[1..]| && reasons[1..][k].id == id && reasons[1..][k].caption == r.value
                   && forall j :: 0 <= j < k ==> reasons[1..][j].id != id;
          assert reasons[k + 1].id == id && reasons[k + 1].caption == r.value;
          assert forall j :: 0 <= j < k + 1 ==> reasons[j].id != id by {
            forall j | 0 <= j < k + 1 ensures reasons[j].id != id {
              if j > 0 { assert reasons[j] == reasons[1..][j - 1]; }
            }
          }
        }
      }
      r
  }

  /** The reason sent with a rejection: the label of the chosen reason, falling back to the comment. */
  function ReasonLabel(reasonId: string, comment: string): string {
    match FindLabel(RejectionReasons, reasonId)
    case Some(caption) => if caption == "" then comment else caption
    case None => comment
  }

  lemma ReasonIdsDistinct()
    ensures forall x, y :: 0 <= x < y < |RejectionReasons| ==> RejectionReasons[x].id != RejectionReasons[y].id
  {
    var ids := seq(|RejectionReasons|, i requires 0 <= i < |RejectionReasons| => RejectionReasons[i].id);
    assert ids == ["prohibited", "wrong_category", "incorrect_description", "photo_issues", "fraud_suspicion", "other"];
    assert forall x, y :: 0 <= x < y < |ids| ==> ids[x][0] != ids[y][0] || |ids[x]| != |ids[y]|;
  }

  /** Each of the six reasons is sent under its label; any other id sends the comment as the reason. */
  lemma ReasonLabels(comment: string)
    ensures forall k :: 0 <= k < |RejectionReasons| ==>
              ReasonLabel(RejectionReasons[k].id, comment) == RejectionReasons[k].caption
    ensures forall id :: (forall k :: 0 <= k < |RejectionReasons| ==> RejectionReasons[k].id != id) ==>
              ReasonLabel(id, comment) == comment
  {
    ReasonIdsDistinct();
    forall k | 0 <= k < |RejectionReasons|
      ensures ReasonLabel(RejectionReasons[k].id, comment) == RejectionReasons[k].caption
    {
      var l := FindLabel(RejectionReasons, RejectionReasons[k].id);
      var i :| 0 <= i < |RejectionReasons| && RejectionReasons[i].id == RejectionReasons[k].id
               && RejectionReasons[i].caption == l.value;
      assert i == k;
      assert RejectionReasons[k].caption != "";
    }
  }

  // ================================================================ handleReject

  /** What `handleReject` does with the dialog's reason id and comment. */
  datatype RejectDecision =
    | WarnNoReason          // "Выберите причину отклонения"
    | WarnNoComment         // "Укажите причину отклонения"
    | NoAd                  // the ad has not loaded: return silently
    | Submit(reason: string, comment: Option<string>)

  function DecideReject(reasonId: string, comment: string, loaded: bool): RejectDecision {
    if reasonId == "" then WarnNoReason
    else if reasonId == "other" && Trim(comment) == "" then WarnNoComment
    else if !loaded then NoAd
    else Submit(ReasonLabel(reasonId, comment), if comment == "" then None else Some(comment))
  }

  /**
   * A rejection is sent exactly when a reason is chosen, the reason `other`
   * comes with a comment that is not blank, and the ad is loaded. It then
   * carries the reason's label (or the comment for an unknown id) and the
   * comment, which is left out when empty.
   */
  lemma RejectRules(reasonId: string, comment: string, loaded: bool)
    ensures var d := DecideReject(reasonId, comment, loaded);
            && (d.Submit? <==> reasonId != "" && !(reasonId == "other" && AllWhiteSpace(comment)) && loaded)
            && (reasonId == "" ==> d == WarnNoReason)
            && (reasonId == "other" && AllWhiteSpace(comment) ==> d == WarnNoComment)
            && (d.Submit? ==> d.reason == ReasonLabel(reasonId, comment))
            && (d.Submit? ==> (d.comment.None? <==> comment == "") && (d.comment.Some? ==> d.comment.value == comment))
            && (d.Submit? && reasonId == "other" ==> d.reason == "Другое" && d.comment == Some(comment))
  {
    TrimEmptyIff(comment);
    ReasonLabels(comment);
    if reasonId == "other" {
      assert RejectionReasons[5].id == "other";
    }
  }

  // ================================================================ cache invalidation

  /** One element of a TanStack query key. */
  datatype KeyPart = KStr(s: string) | KNum(n: int)

  type QueryKey = seq<KeyPart>

  /** The key prefixes a successful approve, reject or request-changes invalidates, in order. */
  function Invalidations(adId: int): seq<QueryKey> {
    [[KStr("ad"), KNum(adId)],
     [KStr("ads")],
     [KStr("summaryStats")],
     [KStr("activityChart")],
     [KStr("decisionsChart")],
     [KStr("categoriesChart")]]
  }

  /** `invalidateQueries({ queryKey: prefix })` reaches the queries whose key starts with `prefix`. */
  predicate Covers(prefix: QueryKey, key: QueryKey) {
    |prefix| <= |key| && key[..|prefix|] == prefix
  }

  /** A cached query is marked stale by one of the invalidations. */
  predicate Invalidated(adId: int, key: QueryKey) {
    exists i :: 0 <= i < |Invalidations(adId)| && Covers(Invalidations(adId)[i], key)
  }

  /**
   * The queries a moderation makes stale: the ad itself, every ads list
   * (whatever its filters), and the four statistics queries; nothing else.
   */
  lemma InvalidationScope(adId: int, key: QueryKey)
    ensures Invalidated(adId, key) <==>
              (|key| >= 2 && key[0] == KStr("ad") && key[1] == KNum(adId))
              || (|key| >= 1 && key[0] in [KStr("ads"), KStr("summaryStats"), KStr("activityChart"),
                                           KStr("decisionsChart"), KStr("categoriesChart")])
  {
    var inv := Invalidations(adId);
    if |key| >= 2 && key[0] == KStr("ad") && key[1] == KNum(adId) {
      assert key[..2] == inv[0];
    }
    if |key| >= 1 {
      assert key[..1] == [key[0]];
      if key[0] == KStr("ads") { assert Covers(inv[1], key); }
      if key[0] == KStr("summaryStats") { assert Covers(inv[2], key); }
      if key[0] == KStr("activityChart") { assert Covers(inv[3], key); }
      if key[0] == KStr("decisionsChart") { assert Covers(inv[4], key); }
      if key[0] == KStr("categoriesChart") { assert Covers(inv[5], key); }
    }
    if Invalidated(adId, key) {
      var i :| 0 <= i < |inv| && Covers(inv[i], key);
      assert key[0] == inv[i][0];
      if i == 0 { assert key[1] == inv[0][1]; }
    }
  }

  /**
   * Concretely: the ads list of the list page and the full list of the detail
   * page are refreshed, the category list and every other ad are not.
   */
  lemma InvalidationExamples(adId: int, other: int, rest: QueryKey)
    requires other != adId
    ensures Invalidated(adId, [KStr("ads")] + rest)
    ensures Invalidated(adId, [KStr("ads"), KStr("all")])
    ensures Invalidated(adId, [KStr("ad"), KNum(adId)])
    ensures !Invalidated(adId, [KStr("ad"), KNum(other)])
    ensures !Invalidated(adId, [KStr("categories")])
  {
    InvalidationScope(adId, [KStr("ads")] + rest);
    InvalidationScope(adId, [KStr("ads"), KStr("all")]);
    InvalidationScope(adId, [KStr("ad"), KNum(adId)]);
    InvalidationScope(adId, [KStr("ad"), KNum(other)]);
    InvalidationScope(adId, [KStr("categories")]);
  }

  /** The query cache, reduced to the log of the invalidations it received. */
  class QueryClient {
    var invalidated: seq<QueryKey>

    constructor ()
      ensures invalidated == []
    {
      invalidated := [];
    }

    method InvalidateQueries(prefix: QueryKey)
      modifies this
      ensures invalidated == old(invalidated) + [prefix]
    {
      invalidated := invalidated + [prefix];
    }

    /** The `onSuccess` handler shared by the three moderation mutations. */
    method OnModerationSuccess(adId: int)
      modifies this
      ensures invalidated == old(invalidated) + Invalidations(adId)
    {
      InvalidateQueries([KStr("ad"), KNum(adId)]);
      InvalidateQueries([KStr("ads")]);
      InvalidateQueries([KStr("summaryStats")]);
      InvalidateQueries([KStr("activityChart")]);
      InvalidateQueries([KStr("decisionsChart")]);
      InvalidateQueries([KStr("categoriesChart")]);
    }
  }

  // ================================================================ the page

  /** The reason and comment of every request for changes. */
  const ReworkReason: string := "Требуется доработка"

  /**
   * The detail page's state: the ad id from the route, the loaded ad (`None`
   * while loading or when not found) and the three cells of the rejection dialog.
   */
  class DetailPage {
    const adId: int
    const ad: Option<Ad>
    var rejectModalVisible: bool
    var rejectionReason: string
    var rejectionComment: string

    constructor (adId: int, ad: Option<Ad>)
      ensures this.adId == adId && this.ad == ad
      ensures !rejectModalVisible && rejectionReason == "" && rejectionComment == ""
    {
      this.adId := adId;
      this.ad := ad;
      rejectModalVisible := false;
      rejectionReason := "";
      rejectionComment := "";
    }

    /** `mutation.mutate(...)`: send the request; on success invalidate, on failure leave the cache alone. */
    method Mutate(gw: ModerationGateway, qc: QueryClient, call: Call) returns (ok: bool)
      modifies gw, qc
      ensures gw.log == old(gw.log) + [call]
      ensures ok <==> |old(gw.log)| !in gw.failing
      ensures ok ==> qc.invalidated == old(qc.invalidated) + Invalidations(adId)
      ensures !ok ==> qc.invalidated == old(qc.invalidated)
    {
      ok := gw.Send(call);
      if ok {
        qc.OnModerationSuccess(adId);
      }
    }

    /** `handleApprove`: approves the loaded ad; does nothing while no ad is loaded. */
    method HandleApprove(gw: ModerationGateway, qc: QueryClient)
      modifies gw, qc
      ensures ad.None? ==> gw.log == old(gw.log) && qc.invalidated == old(qc.invalidated)
      ensures ad.Some? ==> gw.log == old(gw.log) + [ApproveCall(adId)]
      ensures ad.Some? && |old(gw.log)| !in gw.failing ==> qc.invalidated == old(qc.invalidated) + Invalidations(adId)
      ensures ad.Some? && |old(gw.log)| in gw.failing ==> qc.invalidated == old(qc.invalidated)
    {
      if ad.None? {
        return;
      }
      var _ := Mutate(gw, qc, ApproveCall(adId));
    }

    /** `handleRework`: asks for changes with the fixed reason and comment, only when an ad is loaded. */
    method HandleRework(gw: ModerationGateway, qc: QueryClient)
      modifies gw, qc
      ensures ad.None? ==> gw.log == old(gw.log) && qc.invalidated == old(qc.invalidated)
      ensures ad.Some? ==> gw.log == old(gw.log) + [RequestChangesCall(adId, ReworkReason, Some(ReworkReason))]
      ensures ad.Some? && |old(gw.log)| !in gw.failing ==> qc.invalidated == old(qc.invalidated) + Invalidations(adId)
      ensures ad.Some? && |old(gw.log)| in gw.failing ==> qc.invalidated == old(qc.invalidated)
    {
      if ad.None? {
        return;
      }
      var _ := Mutate(gw, qc, RequestChangesCall(adId, ReworkReason, Some(ReworkReason)));
    }

    /** The `d` hotkey: opens the rejection dialog. */
    method OpenRejectModal()
      modifies this
      ensures rejectModalVisible
      ensures rejectionReason == old(rejectionReason) && rejectionComment == old(rejectionComment)
    {
      rejectModalVisible := true;
    }

    /**
     * `handleReject`: validates the dialog; when the rejection is sent, the
     * dialog closes and its reason and comment are cleared (whatever the request's
     * outcome), otherwise the dialog is left as it was.
     */
    method HandleReject(gw: ModerationGateway, qc: QueryClient) returns (d: RejectDecision)
      modifies this, gw, qc
      ensures d == DecideReject(old(rejectionReason), old(rejectionComment), ad.Some?)
      ensures !d.Submit? ==>
                && gw.log == old(gw.log) && qc.invalidated == old(qc.invalidated)
                && rejectModalVisible == old(rejectModalVisible)
                && rejectionReason == old(rejectionReason) && rejectionComment == old(rejectionComment)
      ensures d.Submit? ==>
                && gw.log == old(gw.log) + [RejectCall(adId, d.reason, d.comment)]
                && (|old(gw.log)| !in gw.failing ==> qc.invalidated == old(qc.invalidated) + Invalidations(adId))
                && (|old(gw.log)| in gw.failing ==> qc.invalidated == old(qc.invalidated))
                && !rejectModalVisible && rejectionReason == "" && rejectionComment == ""
    {
      if rejectionReason == "" {
        return WarnNoReason;
      }
      if rejectionReason == "other" && Trim(rejectionComment) == "" {
        return WarnNoComment;
      }
      if ad.None? {
        return NoAd;
      }
      var reasonLabel := ReasonLabel(rejectionReason, rejectionComment);
      d := Submit(reasonLabel, if rejectionComment == "" then None else Some(rejectionComment));
      SendRejection(gw, qc, d.reason, d.comment);
    }

    /** Sends the rejection, then closes the dialog and clears it. */
    method SendRejection(gw: ModerationGateway, qc: QueryClient, reason: string, comment: Option<string>)
      modifies this, gw, qc
      ensures gw.log == old(gw.log) + [RejectCall(adId, reason, comment)]
      ensures |old(gw.log)| !in gw.failing ==> qc.invalidated == old(qc.invalidated) + Invalidations(adId)
      ensures |old(gw.log)| in gw.failing ==> qc.invalidated == old(qc.invalidated)
      ensures !rejectModalVisible && rejectionReason == "" && rejectionComment == ""
    {
      var _ := Mutate(gw, qc, RejectCall(adId, reason, comment));
      rejectModalVisible := false;
      rejectionReason := "";
      rejectionComment := "";
    }
  }

  // ================================================================ neighbours

  /** `list.findIndex((a) => a.id === id)`. */
  function FindIndex(list: seq<Ad>, id: int): (r: int)
    ensures -1 <= r < |list|
    ensures r >= 0 ==> list[r].id == id && forall k :: 0 <= k < r ==> list[k].id != id
    ensures r == -1 <==> forall k :: 0 <= k < |list| ==> list[k].id != id
  {
    if list == [] then -1
    else if list[0].id == id then 0
    else
      var r := FindIndex(list[1..], id);
      if r == -1 then -1 else r + 1
  }

  /**
   * The ads the arrows lead to, in the full list (`None` while it is loading):
   * the previous and the next ad around the current one.
   */
  function Neighbours(list: Option<seq<Ad>>, id: int): (Option<Ad>, Option<Ad>) {
    var data := list.GetOr([]);
    var current := FindIndex(data, id);
    (if current > 0 then Some(data[current - 1]) else None,
     if current >= 0 && current < |data| - 1 then Some(data[current + 1]) else None)
  }

  /**
   * There is a previous ad exactly when the ad is found after the first
   * position, and a next one exactly when it is found before the last; an ad
   * missing from the list (or a list still loading) has neither.
   */
  lemma NeighboursFacts(list: Option<seq<Ad>>, id: int)
    ensures var data, (prev, next) := list.GetOr([]), Neighbours(list, id);
            var i := FindIndex(data, id);
            && (prev.Some? <==> i > 0)
            && (prev.Some? ==> prev.value == data[i - 1])
            && (next.Some? <==> 0 <= i < |data| - 1)
            && (next.Some? ==> next.value == data[i + 1])
            && ((forall k :: 0 <= k < |data| ==> data[k].id != id) ==> prev.None? && next.None?)
            && (list.None? ==> prev.None? && next.None?)
            && (data != [] && data[0].id == id ==> prev.None?)
            && (prev.Some? ==> prev.value in data && prev.value.id != id)
            && (next.Some? ==> next.value in data)
  {
  }

  /** In a list whose ids are distinct, going to the next ad and back returns to the same ad. */
  lemma NextThenPrevious(list: seq<Ad>, k: int)
    requires forall x, y :: 0 <= x < y < |list| ==> list[x].id != list[y].id
    requires 0 <= k < |list| - 1
    ensures Neighbours(Some(list), list[k].id).1 == Some(list[k + 1])
    ensures Neighbours(Some(list), list[k + 1].id).0 == Some(list[k])
  {
    assert FindIndex(list, list[k].id) == k;
    assert FindIndex(list, list[k + 1].id) == k + 1;
  }

  /** The arguments of the full-list query: `getAds({ limit: 1000 })`. */
  const AllAdsParams: ListParams := ListParams(None, None, None, None, None, None, None, None, Some(1000))

  /** The full list the neighbours come from is the server's list, in its own order, cut at 1000 ads. */
  lemma AllAdsIsServerOrder(ads: seq<Ad>)
    ensures FilterAds(ads, AllAdsParams) == ads
    ensures !SortRequested(AllAdsParams)
    ensures Paginate(ads, AllAdsParams) == if |ads| <= 1000 then ads else ads[..1000]
  {
    PageWindow(ads, AllAdsParams);
    assert ads[0..|ads|] == ads;
  }

  // ================================================================ history colours

  /** `getStatusColor(action)`. */
  function StatusColor(action: string): string {
    if action == "approved" then "green"
    else if action == "rejected" then "red"
    else if action == "requestChanges" then "orange"
    else "default"
  }

  /** `getStatusText(action)`. */
  function StatusText(action: string): string {
    if action == "approved" then "Одобрено"
    else if action == "rejected" then "Отклонено"
    else if action == "requestChanges" then "На доработке"
    else action
  }

  /**
   * An action falls back to the default colour exactly when it is shown under
   * its own name; the three recorded actions have their own colour and text.
   */
  lemma StatusMappings(action: string)
    ensures StatusColor(action) == "default" <==> StatusText(action) == action
    ensures forall a: HistoryAction :: StatusColor(ActionName(a)) != "default"
    ensures StatusColor(action) != "default" ==> exists a: HistoryAction :: ActionName(a) == action
  {
    if StatusColor(action) != "default" {
      if action == "approved" { assert ActionName(ActionApproved) == action; }
      else if action == "rejected" { assert ActionName(ActionRejected) == action; }
      else { assert ActionName(ActionRequestChanges) == action; }
    }
  }
}
