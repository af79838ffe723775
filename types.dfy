/**
 * The record types of the moderation dashboard: an ad (listing), its status and
 * priority, its seller and its moderation history.
 *
 * Timestamps are integers (milliseconds since the epoch, what `new Date(...).getTime()`
 * yields) and prices are integers; the seller's rating, which may be fractional, is a real.
 */
module Types {
  import opened Wrappers

  datatype AdStatus = Pending | Approved | Rejected | Draft

  /** The wire name of a status, as the server sends it and as URL filters carry it. */
  function StatusName(s: AdStatus): string {
    match s
    case Pending => "pending"
    case Approved => "approved"
    case Rejected => "rejected"
    case Draft => "draft"
  }

  datatype Priority = Normal | Urgent

  /** The action recorded in a moderation history entry. */
  datatype HistoryAction = ActionApproved | ActionRejected | ActionRequestChanges

  function ActionName(a: HistoryAction): string {
    match a
    case ActionApproved => "approved"
    case ActionRejected => "rejected"
    case ActionRequestChanges => "requestChanges"
  }

  /** A seller; `rating` is a JavaScript number that may be fractional, so it is a real. */
  datatype Seller = Seller(id: int, name: string, rating: real, totalAds: int, registeredAt: string)

  datatype HistoryItem = HistoryItem(
    id: int,
    moderatorId: int,
    moderatorName: string,
    action: HistoryAction,
    reason: Option<string>,
    comment: Option<string>,
    timestamp: string)

  datatype Ad = Ad(
    id: int,
    title: string,
    price: int,
    category: string,
    categoryId: int,
    description: string,
    images: seq<string>,
    characteristics: map<string, string>,
    seller: Seller,
    status: AdStatus,
    priority: Priority,
    createdAt: int,
    updatedAt: int,
    moderationHistory: seq<HistoryItem>)
}
