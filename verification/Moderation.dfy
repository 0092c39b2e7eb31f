/** Reviewers who decide on the same items at the same time. A decision reads the item, then updates it only if its
    status is still the one that was seen, then writes the log; anything may happen between these steps. */
module Moderation {
  import opened Prelude
  import opened Comments

  datatype ContentType = PollContent | PostContent | CommentContent

  datatype ItemId = ItemId(contentType: ContentType, id: nat)

  /** reported: there are open reports on it. stay and epoch are records for the proofs: how often the item has
      entered review so far, and how often anybody but a reviewer has set its status. */
  datatype Item = Item(status: Status, reported: bool, stay: nat, epoch: nat)

  datatype Role = ViewerRole | ReviewerRole

  datatype Decision = Approve | Reject | RequestEdit

  datatype Refusal = Forbidden | ContentNotFound | NotReviewable

  function StatusForAction(decision: Decision): (s: Status)
    ensures s != ReviewRequired
    ensures s == Published <==> decision == Approve
    ensures s == Blocked <==> decision == Reject
    ensures s == NeedsEdit <==> decision == RequestEdit
  {
    match decision
    case Approve => Published
    case Reject => Blocked
    case RequestEdit => NeedsEdit
  }

  /** The conditional update: it writes only where the status is the expected one. */
  function Decide(item: Item, expected: Status, decision: Decision): Option<Item> {
    if item.status == expected then Some(item.(status := StatusForAction(decision))) else None
  }

  // ---------------------------------------------------------------- the system

  /** An update that went through: the status the row held, and the stay and the epoch it was in. */
  datatype Fire = Fire(item: ItemId, request: nat, decision: Decision, held: Status, stay: nat, epoch: nat)

  /** A row of moderation_review_actions; fire: the update it was written for. */
  datatype Entry = Entry(item: ItemId, request: nat, decision: Decision, previous: Status, next: Status, fire: nat)

  datatype Pc =
    | Opened
    | SawPublished
    | Checked(seen: Status)
    | Updated(seen: Status, fire: nat)
    | Logged(seen: Status, entry: nat)
    | Finished(entry: nat)
    | Refused(reason: Refusal)

  datatype Review = Review(role: Role, item: ItemId, decision: Decision, pc: Pc)

  datatype System = System(items: map<ItemId, Item>, reviews: map<nat, Review>, fires: seq<Fire>, log: seq<Entry>)

  datatype Action =
    | Open(request: nat, role: Role, item: ItemId, decision: Decision)
    | Move(request: nat)
    | Change(item: ItemId, status: Status)
    | Report(item: ItemId)

  /** Anything else that happens to a status: new content, edits, appeals, automatic moderation. */
  function ChangeItem(items: map<ItemId, Item>, id: ItemId, status: Status): map<ItemId, Item> {
    if id !in items then items[id := Item(status, false, if status == ReviewRequired then 1 else 0, 0)]
    else
      var item := items[id];
      var enters := status == ReviewRequired && item.status != status;
      items[id := item.(status := status, stay := item.stay + if enters then 1 else 0, epoch := item.epoch + 1)]
  }

  /** getReviewDetail and the checks after it. The open reports of published content are a second read. */
  function AfterRead(role: Role, id: ItemId, items: map<ItemId, Item>): Pc {
    if role == ViewerRole then Refused(Forbidden)
    else if id !in items then Refused(ContentNotFound)
    else if items[id].status == ReviewRequired then Checked(ReviewRequired)
    else if id.contentType != PollContent && items[id].status == Published then SawPublished
    else Refused(NotReviewable)
  }

  function AfterReports(id: ItemId, items: map<ItemId, Item>): Pc {
    if id in items && items[id].reported then Checked(Published) else Refused(NotReviewable)
  }

  function Advance(sys: System, request: nat, review: Review): System {
    match review.pc
    case Opened => At(sys, request, review, AfterRead(review.role, review.item, sys.items))
    case SawPublished => At(sys, request, review, AfterReports(review.item, sys.items))
    case Checked(seen) =>
      if review.item in sys.items && Decide(sys.items[review.item], seen, review.decision).Some? then
        var item := sys.items[review.item];
        var fire := Fire(review.item, request, review.decision, item.status, item.stay, item.epoch);
        At(sys.(items := sys.items[review.item := Decide(item, seen, review.decision).value],
                fires := sys.fires + [fire]),
           request, review, Updated(seen, |sys.fires|))
      else At(sys, request, review, Refused(NotReviewable))
    case Updated(seen, fire) =>
      var entry := Entry(review.item, request, review.decision, seen, StatusForAction(review.decision), fire);
      At(sys.(log := sys.log + [entry]), request, review, Logged(seen, |sys.log|))
    case Logged(seen, entry) =>
      At(if seen == Published && review.item in sys.items
         then sys.(items := sys.items[review.item := sys.items[review.item].(reported := false)]) else sys,
         request, review, Finished(entry))
    case _ => sys
  }

  function At(sys: System, request: nat, review: Review, pc: Pc): System {
    sys.(reviews := sys.reviews[request := review.(pc := pc)])
  }

  function Step(sys: System, a: Action): System {
    match a
    case Open(request, role, item, decision) =>
      if request in sys.reviews then sys
      else sys.(reviews := sys.reviews[request := Review(role, item, decision, Opened)])
    case Move(request) => if request in sys.reviews then Advance(sys, request, sys.reviews[request]) else sys
    case Change(item, status) => sys.(items := ChangeItem(sys.items, item, status))
    case Report(item) => if item in sys.items then
        sys.(items := sys.items[item := sys.items[item].(reported := true)]) else sys
  }

  function Run(actions: seq<Action>): System {
    if actions == [] then System(map[], map[], [], []) else Step(Run(actions[..|actions| - 1]), actions[|actions| - 1])
  }

  // ---------------------------------------------------------------- one decision for each stay

  /** A decision taken while the item waited for review lies in a stay that is over. */
  ghost predicate SpentAt(sys: System, k: nat)
    requires k < |sys.fires|
  {
    var f := sys.fires[k];
    && f.item in sys.items
    && f.stay <= sys.items[f.item].stay
    && (f.held == ReviewRequired && f.stay == sys.items[f.item].stay ==> sys.items[f.item].status != ReviewRequired)
  }

  ghost predicate SameStay(f: Fire, g: Fire) {
    f.item == g.item && f.held == ReviewRequired && g.held == ReviewRequired && f.stay == g.stay
  }

  ghost predicate StayInv(sys: System) {
    && (forall k :: 0 <= k < |sys.fires| ==> SpentAt(sys, k))
    && (forall j, k :: 0 <= j < k < |sys.fires| ==> !SameStay(sys.fires[j], sys.fires[k]))
  }

  /** The item is as before or has moved on to a later stay. */
  ghost predicate Onwards(before: map<ItemId, Item>, after: map<ItemId, Item>) {
    forall id :: id in before ==> id in after && OnwardsAt(before[id], after[id])
  }

  predicate OnwardsAt(x: Item, y: Item) {
    x.stay < y.stay || (x.stay == y.stay && (y.status == ReviewRequired ==> x.status == ReviewRequired))
  }

  lemma OnwardsKeepsSpent(sys: System, items: map<ItemId, Item>, k: nat)
    requires k < |sys.fires| && SpentAt(sys, k) && Onwards(sys.items, items)
    ensures SpentAt(sys.(items := items), k)
  {
    assert OnwardsAt(sys.items[sys.fires[k].item], items[sys.fires[k].item]);
  }

  lemma OnwardsKeepsStays(sys: System, items: map<ItemId, Item>)
    requires StayInv(sys) && Onwards(sys.items, items)
    ensures StayInv(sys.(items := items))
  {
    forall k | 0 <= k < |sys.fires|
      ensures SpentAt(sys.(items := items), k)
    {
      OnwardsKeepsSpent(sys, items, k);
    }
  }

  lemma FiringKeepsStays(sys: System, request: nat, review: Review)
    requires StayInv(sys) && review.pc.Checked? && review.item in sys.items
    requires Decide(sys.items[review.item], review.pc.seen, review.decision).Some?
    ensures StayInv(Advance(sys, request, review))
  {
    var item := sys.items[review.item];
    var items := sys.items[review.item := Decide(item, review.pc.seen, review.decision).value];
    OnwardsKeepsStays(sys, items);
    var after := Advance(sys, request, review);
    forall k | 0 <= k < |after.fires|
      ensures SpentAt(after, k)
    {
      assert k < |sys.fires| ==> SpentAt(sys.(items := items), k);
    }
    forall j | 0 <= j < |sys.fires|
      ensures !SameStay(sys.fires[j], after.fires[|sys.fires|])
    {
      assert SpentAt(sys, j);
    }
  }

  // ---------------------------------------------------------------- the log

  /** A log row names an update made by the same request, and the status that the row held then. */
  ghost predicate EntryAt(sys: System, k: nat)
    requires k < |sys.log|
  {
    var e := sys.log[k];
    && e.fire < |sys.fires|
    && sys.fires[e.fire] == Fire(e.item, e.request, e.decision, e.previous,
                                 sys.fires[e.fire].stay, sys.fires[e.fire].epoch)
    && e.next == StatusForAction(e.decision)
    && e.request in sys.reviews && HasLogged(sys.reviews[e.request].pc, k)
  }

  predicate HasLogged(pc: Pc, entry: nat) {
    match pc
    case Logged(_, e) => e == entry
    case Finished(e) => e == entry
    case _ => false
  }

  /** Every update is logged by its request, or the request is about to log it. */
  ghost predicate FireAt(sys: System, k: nat)
    requires k < |sys.fires|
  {
    var f := sys.fires[k];
    && f.request in sys.reviews && sys.reviews[f.request].role != ViewerRole
    && match sys.reviews[f.request].pc
       case Updated(_, fire) => fire == k
       case Logged(_, e) => e < |sys.log| && sys.log[e].fire == k
       case Finished(e) => e < |sys.log| && sys.log[e].fire == k
       case _ => false
  }

  ghost predicate ReviewAt(sys: System, request: nat)
    requires request in sys.reviews
  {
    var review := sys.reviews[request];
    match review.pc
    case SawPublished => review.role != ViewerRole
    case Checked(seen) => review.role != ViewerRole && (seen == ReviewRequired || seen == Published)
    case Updated(seen, fire) =>
      && fire < |sys.fires|
      && var f := sys.fires[fire];
         f == Fire(review.item, request, review.decision, seen, f.stay, f.epoch)
    case _ => true
  }

  ghost predicate LogInv(sys: System) {
    && (forall k :: 0 <= k < |sys.log| ==> EntryAt(sys, k))
    && (forall k :: 0 <= k < |sys.fires| ==> FireAt(sys, k))
    && (forall request :: request in sys.reviews ==> ReviewAt(sys, request))
  }

  /** A step that only moves one request, which has made no update, to a state without one. */
  lemma WaitingKeepsLog(sys: System, request: nat, review: Review)
    requires LogInv(sys)
    requires request in sys.reviews ==>
        !sys.reviews[request].pc.Updated? && !sys.reviews[request].pc.Logged? && !sys.reviews[request].pc.Finished?
    requires !review.pc.Updated? && (review.pc.SawPublished? || review.pc.Checked? ==> review.role != ViewerRole)
    requires review.pc.Checked? ==> review.pc.seen == ReviewRequired || review.pc.seen == Published
    ensures LogInv(sys.(reviews := sys.reviews[request := review]))
  {
    var after := sys.(reviews := sys.reviews[request := review]);
    forall k | 0 <= k < |after.log|
      ensures EntryAt(after, k)
    {
      assert EntryAt(sys, k);
    }
    forall k | 0 <= k < |after.fires|
      ensures FireAt(after, k)
    {
      assert FireAt(sys, k);
    }
    forall r | r in after.reviews
      ensures ReviewAt(after, r)
    {
      assert r != request ==> ReviewAt(sys, r);
    }
  }

  lemma ItemsKeepLog(sys: System, items: map<ItemId, Item>)
    requires LogInv(sys)
    ensures LogInv(sys.(items := items))
  {
    var after := sys.(items := items);
    forall k | 0 <= k < |after.log|
      ensures EntryAt(after, k)
    {
      assert EntryAt(sys, k);
    }
    forall k | 0 <= k < |after.fires|
      ensures FireAt(after, k)
    {
      assert FireAt(sys, k);
    }
    forall r | r in after.reviews
      ensures ReviewAt(after, r)
    {
      assert ReviewAt(sys, r);
    }
  }

  lemma FiringKeepsLog(sys: System, request: nat)
    requires LogInv(sys) && request in sys.reviews && sys.reviews[request].pc.Checked?
    ensures LogInv(Step(sys, Move(request)))
  {
    var review := sys.reviews[request];
    var after := Step(sys, Move(request));
    assert ReviewAt(sys, request);
    if after.fires == sys.fires {
      WaitingKeepsLog(sys, request, review.(pc := Refused(NotReviewable)));
    } else {
      forall k | 0 <= k < |after.log|
        ensures EntryAt(after, k)
      {
        assert EntryAt(sys, k);
      }
      forall k | 0 <= k < |after.fires|
        ensures FireAt(after, k)
      {
        assert k < |sys.fires| ==> FireAt(sys, k);
      }
      forall r | r in after.reviews
        ensures ReviewAt(after, r)
      {
        assert ReviewAt(sys, r);
      }
    }
  }

  lemma LoggingKeepsLog(sys: System, request: nat)
    requires LogInv(sys) && request in sys.reviews && sys.reviews[request].pc.Updated?
    ensures LogInv(Step(sys, Move(request)))
  {
    var after := Step(sys, Move(request));
    assert ReviewAt(sys, request);
    forall k | 0 <= k < |after.log|
      ensures EntryAt(after, k)
    {
      assert k < |sys.log| ==> EntryAt(sys, k);
    }
    forall k | 0 <= k < |after.fires|
      ensures FireAt(after, k)
    {
      assert FireAt(sys, k);
    }
    forall r | r in after.reviews
      ensures ReviewAt(after, r)
    {
      assert ReviewAt(sys, r);
    }
  }

  lemma FinishingKeepsLog(sys: System, request: nat)
    requires LogInv(sys) && request in sys.reviews && sys.reviews[request].pc.Logged?
    ensures LogInv(Step(sys, Move(request)))
  {
    var after := Step(sys, Move(request));
    forall k | 0 <= k < |after.log|
      ensures EntryAt(after, k)
    {
      assert EntryAt(sys, k);
    }
    forall k | 0 <= k < |after.fires|
      ensures FireAt(after, k)
    {
      assert FireAt(sys, k);
    }
    forall r | r in after.reviews
      ensures ReviewAt(after, r)
    {
      assert ReviewAt(sys, r);
    }
  }

  lemma MoveKeepsLog(sys: System, request: nat)
    requires LogInv(sys) && request in sys.reviews
    ensures LogInv(Step(sys, Move(request)))
  {
    var review := sys.reviews[request];
    assert ReviewAt(sys, request);
    match review.pc
    case Opened => WaitingKeepsLog(sys, request, review.(pc := AfterRead(review.role, review.item, sys.items)));
    case SawPublished => WaitingKeepsLog(sys, request, review.(pc := AfterReports(review.item, sys.items)));
    case Checked(_) => FiringKeepsLog(sys, request);
    case Updated(_, _) => LoggingKeepsLog(sys, request);
    case Logged(_, _) => FinishingKeepsLog(sys, request);
    case _ =>
  }

  // ---------------------------------------------------------------- decisions between outside changes

  /** As long as nobody else sets the status, a decision leaves the item out of review, and one that does not approve
      is the status that stays. */
  ghost predicate EpochAt(sys: System, k: nat)
    requires k < |sys.fires|
  {
    var f := sys.fires[k];
    && f.item in sys.items && f.epoch <= sys.items[f.item].epoch
    && (f.epoch == sys.items[f.item].epoch ==>
          && sys.items[f.item].status != ReviewRequired
          && (f.decision != Approve ==> sys.items[f.item].status == StatusForAction(f.decision)))
  }

  /** The later of two decisions with no outside change in between found the item published by the earlier one. */
  ghost predicate InTurn(f: Fire, g: Fire) {
    f.item == g.item && f.epoch == g.epoch ==> f.decision == Approve && g.held == Published
  }

  ghost predicate EpochInv(sys: System) {
    && (forall k :: 0 <= k < |sys.fires| ==> EpochAt(sys, k))
    && (forall j, k :: 0 <= j < k < |sys.fires| ==> InTurn(sys.fires[j], sys.fires[k]))
  }

  predicate SameOrLater(x: Item, y: Item) {
    x.epoch < y.epoch || (x.epoch == y.epoch && x.status == y.status)
  }

  lemma ItemsKeepEpochs(sys: System, after: System)
    requires EpochInv(sys) && after.fires == sys.fires
    requires forall id :: id in sys.items ==> id in after.items && SameOrLater(sys.items[id], after.items[id])
    ensures EpochInv(after)
  {
    forall k | 0 <= k < |after.fires|
      ensures EpochAt(after, k)
    {
      assert EpochAt(sys, k);
    }
  }

  lemma FiringKeepsEpochs(sys: System, request: nat)
    requires EpochInv(sys) && LogInv(sys) && request in sys.reviews && sys.reviews[request].pc.Checked?
    ensures EpochInv(Step(sys, Move(request)))
  {
    var after := Step(sys, Move(request));
    assert ReviewAt(sys, request);
    if after.fires == sys.fires {
      ItemsKeepEpochs(sys, after);
    } else {
      forall k | 0 <= k < |after.fires|
        ensures EpochAt(after, k)
      {
        assert k < |sys.fires| ==> EpochAt(sys, k);
      }
      forall j | 0 <= j < |sys.fires|
        ensures InTurn(after.fires[j], after.fires[|sys.fires|])
      {
        assert EpochAt(sys, j);
      }
    }
  }

  lemma MoveKeepsEpochs(sys: System, request: nat)
    requires EpochInv(sys) && LogInv(sys) && request in sys.reviews
    ensures EpochInv(Step(sys, Move(request)))
  {
    if sys.reviews[request].pc.Checked? {
      FiringKeepsEpochs(sys, request);
    } else {
      ItemsKeepEpochs(sys, Step(sys, Move(request)));
    }
  }

  // ---------------------------------------------------------------- every run

  lemma MoveKeepsStays(sys: System, request: nat)
    requires StayInv(sys) && request in sys.reviews
    ensures StayInv(Step(sys, Move(request)))
  {
    var review := sys.reviews[request];
    var after := Step(sys, Move(request));
    if after.fires != sys.fires {
      FiringKeepsStays(sys, request, review);
    } else {
      OnwardsKeepsStays(sys, after.items);
      SameStays(sys.(items := after.items), after);
    }
  }

  lemma SameStays(sys: System, after: System)
    requires StayInv(sys) && after.items == sys.items && after.fires == sys.fires
    ensures StayInv(after)
  {
    forall k | 0 <= k < |after.fires|
      ensures SpentAt(after, k)
    {
      assert SpentAt(sys, k);
    }
  }

  lemma StepKeepsInv(sys: System, a: Action)
    requires StayInv(sys) && LogInv(sys) && EpochInv(sys)
    ensures StayInv(Step(sys, a)) && LogInv(Step(sys, a)) && EpochInv(Step(sys, a))
  {
    match a
    case Open(request, role, item, decision) =>
      if request !in sys.reviews {
        WaitingKeepsLog(sys, request, Review(role, item, decision, Opened));
        SameStays(sys, Step(sys, a));
        ItemsKeepEpochs(sys, Step(sys, a));
      }
    case Move(request) =>
      if request in sys.reviews {
        MoveKeepsStays(sys, request);
        MoveKeepsLog(sys, request);
        MoveKeepsEpochs(sys, request);
      }
    case Change(item, status) =>
      OnwardsKeepsStays(sys, ChangeItem(sys.items, item, status));
      ItemsKeepLog(sys, ChangeItem(sys.items, item, status));
      ItemsKeepEpochs(sys, Step(sys, a));
    case Report(item) =>
      OnwardsKeepsStays(sys, Step(sys, a).items);
      ItemsKeepLog(sys, Step(sys, a).items);
      ItemsKeepEpochs(sys, Step(sys, a));
  }

  lemma {:induction false} RunsKeepInv(actions: seq<Action>)
    ensures StayInv(Run(actions)) && LogInv(Run(actions)) && EpochInv(Run(actions))
  {
    if actions != [] {
      RunsKeepInv(actions[..|actions| - 1]);
      StepKeepsInv(Run(actions[..|actions| - 1]), actions[|actions| - 1]);
    }
  }

  /** Whatever else happens meanwhile, the log says what the row held when the update went through, no update is
      logged twice, and nobody with the viewer role appears in it. */
  lemma LogTellsTheTruth(actions: seq<Action>, k: nat)
    requires k < |Run(actions).log|
    ensures var sys := Run(actions);
      var e := sys.log[k];
      && e.fire < |sys.fires| && sys.fires[e.fire].item == e.item && sys.fires[e.fire].request == e.request
      && sys.fires[e.fire].held == e.previous && sys.fires[e.fire].decision == e.decision
      && e.next == StatusForAction(e.decision) && e.request in sys.reviews && sys.reviews[e.request].role != ViewerRole
    ensures forall j :: 0 <= j < |Run(actions).log| && j != k ==> Run(actions).log[j].fire != Run(actions).log[k].fire
  {
    RunsKeepInv(actions);
    var sys := Run(actions);
    assert EntryAt(sys, k);
    assert FireAt(sys, sys.log[k].fire);
    forall j | 0 <= j < |sys.log| && j != k
      ensures sys.log[j].fire != sys.log[k].fire
    {
      assert EntryAt(sys, j);
    }
  }

  /** Each stay in review ends with at most one decision. */
  lemma OneDecisionPerStay(actions: seq<Action>, j: nat, k: nat)
    requires j < k < |Run(actions).fires|
    requires var fires := Run(actions).fires;
      fires[j].item == fires[k].item && fires[j].held == ReviewRequired && fires[k].held == ReviewRequired
    ensures Run(actions).fires[j].stay != Run(actions).fires[k].stay
  {
    RunsKeepInv(actions);
    var sys := Run(actions);
    assert !SameStay(sys.fires[j], sys.fires[k]);
  }

  // ---------------------------------------------------------------- one request alone

  function Moves(sys: System, request: nat, n: nat): System
    decreases n
  {
    if n == 0 then sys else Moves(Step(sys, Move(request)), request, n - 1)
  }

  /** In review, or published with open reports and not a poll. */
  predicate Decidable(items: map<ItemId, Item>, id: ItemId) {
    && id in items
    && (|| items[id].status == ReviewRequired
        || (id.contentType != PollContent && items[id].status == Published && items[id].reported))
  }

  /** The request has logged a decision over this status, and the item has the decided status. */
  ghost predicate DecidedOver(sys: System, after: System, request: nat, review: Review, held: Status) {
    && |after.log| == |sys.log| + 1 && after.log[..|sys.log|] == sys.log
    && after.log[|sys.log|].item == review.item && after.log[|sys.log|].request == request
    && after.log[|sys.log|].decision == review.decision && after.log[|sys.log|].previous == held
    && review.item in after.items && after.items[review.item].status == StatusForAction(review.decision)
  }

  lemma CheckedDecides(sys: System, request: nat, seen: Status)
    requires request in sys.reviews && sys.reviews[request].pc == Checked(seen)
    requires var review := sys.reviews[request]; review.item in sys.items && sys.items[review.item].status == seen
    ensures var after := Step(Step(sys, Move(request)), Move(request));
      && DecidedOver(sys, after, request, sys.reviews[request], seen)
      && request in after.reviews && after.reviews[request] == sys.reviews[request].(pc := Logged(seen, |sys.log|))
      && var id := sys.reviews[request].item;
         after.items == sys.items[id := sys.items[id].(status := StatusForAction(sys.reviews[request].decision))]
  {
    var one := Step(sys, Move(request));
    assert one.reviews[request].pc == Updated(seen, |sys.fires|);
  }

  lemma RefusedStays(sys: System, request: nat, n: nat)
    requires request in sys.reviews && sys.reviews[request].pc.Refused?
    ensures Moves(sys, request, n) == sys
  {
  }

  /** The item after a decision that went all the way: the decided status, and no open reports if it was published. */
  predicate IsDecided(x: Item, y: Item, decision: Decision) {
    && y.status == (match decision case Approve => Published case Reject => Blocked case RequestEdit => NeedsEdit)
    && y.reported == (x.reported && x.status != Published)
  }

  /** With nobody in between, a decision goes through exactly for a reviewer and a decidable item: then one row is
      logged, the item takes the decided status, and reports on published content are settled; otherwise nothing
      changes, and the refusal says why. */
  lemma UndisturbedDecision(sys: System, request: nat)
    requires request in sys.reviews && sys.reviews[request].pc == Opened
    ensures var review, after := sys.reviews[request], Moves(sys, request, 5);
      if review.role != ViewerRole && Decidable(sys.items, review.item) then
        && DecidedOver(sys, after, request, review, sys.items[review.item].status)
        && IsDecided(sys.items[review.item], after.items[review.item], review.decision)
        && after.items == sys.items[review.item := after.items[review.item]]
      else
        && after.log == sys.log && after.items == sys.items && request in after.reviews
        && after.reviews[request].pc
           == Refused(if review.role == ViewerRole then Forbidden
                      else if review.item !in sys.items then ContentNotFound else NotReviewable)
  {
    var review := sys.reviews[request];
    var one := Step(sys, Move(request));
    SomeMoves(one, request);
    if one.reviews[request].pc.Refused? {
      RefusedStays(one, request, 4);
    } else if review.item in sys.items && sys.items[review.item].status == ReviewRequired {
      CheckedDecides(one, request, ReviewRequired);
      FinishesAfterLog(Step(Step(one, Move(request)), Move(request)), request);
    } else {
      UndisturbedElsewhere(sys, request);
    }
  }

  lemma SomeMoves(sys: System, request: nat)
    ensures Moves(sys, request, 1) == Step(sys, Move(request))
    ensures Moves(sys, request, 2) == Step(Step(sys, Move(request)), Move(request))
    ensures Moves(sys, request, 3) == Moves(Step(Step(sys, Move(request)), Move(request)), request, 1)
    ensures Moves(sys, request, 4) == Moves(Step(Step(sys, Move(request)), Move(request)), request, 2)
  {
    var one := Step(sys, Move(request));
    var two := Step(one, Move(request));
    assert Moves(one, request, 0) == one && Moves(two, request, 0) == two;
    assert Moves(one, request, 1) == two;
    assert Moves(one, request, 2) == Moves(two, request, 1) && Moves(one, request, 3) == Moves(two, request, 2);
  }

  /** After the log only the reports on published content are settled. */
  lemma FinishesAfterLog(sys: System, request: nat)
    requires request in sys.reviews && sys.reviews[request].pc.Logged? && sys.reviews[request].item in sys.items
    ensures var after, id := Step(sys, Move(request)), sys.reviews[request].item;
      && after.log == sys.log
      && after.items == (if sys.reviews[request].pc.seen == Published
                         then sys.items[id := sys.items[id].(reported := false)] else sys.items)
      && Moves(sys, request, 1) == after && Moves(sys, request, 2) == after
  {
    var after := Step(sys, Move(request));
    assert Moves(after, request, 0) == after && Step(after, Move(request)) == after;
    assert Moves(after, request, 1) == after;
  }

  /** Published content with or without reports. */
  lemma UndisturbedElsewhere(sys: System, request: nat)
    requires request in sys.reviews && sys.reviews[request].pc == Opened
    requires var review := sys.reviews[request];
      && !AfterRead(review.role, review.item, sys.items).Refused?
      && sys.items[review.item].status != ReviewRequired
    ensures var review, after := sys.reviews[request], Moves(sys, request, 5);
      if Decidable(sys.items, review.item) then
        && DecidedOver(sys, after, request, review, Published)
        && IsDecided(sys.items[review.item], after.items[review.item], review.decision)
        && after.items == sys.items[review.item := after.items[review.item]]
      else
        && after.log == sys.log && after.items == sys.items
        && request in after.reviews && after.reviews[request].pc == Refused(NotReviewable)
  {
    var one := Step(sys, Move(request));
    var two := Step(one, Move(request));
    SomeMoves(two, request);
    assert Moves(sys, request, 5) == Moves(one, request, 4) == Moves(two, request, 3);
    if two.reviews[request].pc.Refused? {
      RefusedStays(two, request, 3);
    } else {
      CheckedDecides(two, request, Published);
      FinishesAfterLog(Step(Step(two, Move(request)), Move(request)), request);
    }
  }

  // ---------------------------------------------------------------- what stays and epochs count

  predicate InReview(sys: System, id: ItemId) {
    id in sys.items && sys.items[id].status == ReviewRequired
  }

  /** How often the item has come into review. */
  function TimesEntered(actions: seq<Action>, id: ItemId): nat {
    if actions == [] then 0
    else
      var before := actions[..|actions| - 1];
      TimesEntered(before, id) + if InReview(Run(actions), id) && !InReview(Run(before), id) then 1 else 0
  }

  /** How often its status was set from outside. */
  function TimesChanged(actions: seq<Action>, id: ItemId): nat {
    if actions == [] then 0
    else
      var last := actions[|actions| - 1];
      TimesChanged(actions[..|actions| - 1], id) + if last.Change? && last.item == id then 1 else 0
  }

  lemma MoveKeepsRecords(sys: System, request: nat, id: ItemId)
    requires request in sys.reviews
    ensures var after := Step(sys, Move(request));
      && (id in after.items <==> id in sys.items)
      && (id in sys.items ==>
          && after.items[id].stay == sys.items[id].stay && after.items[id].epoch == sys.items[id].epoch
          && (InReview(after, id) ==> InReview(sys, id)))
  {
  }

  /** The stay of an item is the number of times it came into review, its epoch the number of times its status was set
      from outside after the first; a new item has no open reports. */
  lemma {:induction false} RecordsCount(actions: seq<Action>, id: ItemId)
    ensures var sys := Run(actions);
      if id in sys.items then
        sys.items[id].stay == TimesEntered(actions, id) && sys.items[id].epoch + 1 == TimesChanged(actions, id)
      else TimesEntered(actions, id) == 0 && TimesChanged(actions, id) == 0
    ensures actions != [] && id !in Run(actions[..|actions| - 1]).items && id in Run(actions).items ==>
      !Run(actions).items[id].reported
  {
    if actions != [] {
      var before, last := Run(actions[..|actions| - 1]), actions[|actions| - 1];
      RecordsCount(actions[..|actions| - 1], id);
      if last.Move? && last.request in before.reviews {
        MoveKeepsRecords(before, last.request, id);
      }
    }
  }

  // ---------------------------------------------------------------- content that is published

  /** Two decisions on one item with no outside change of its status in between: the earlier one approved, and the
      later one found the item published. So at most one of them all rejects or asks for an edit, and it is the last. */
  lemma OnlyApprovalsRepeat(actions: seq<Action>, j: nat, k: nat)
    requires j < k < |Run(actions).fires|
    requires var fires := Run(actions).fires; fires[j].item == fires[k].item && fires[j].epoch == fires[k].epoch
    ensures Run(actions).fires[j].decision == Approve && Run(actions).fires[k].held == Published
  {
    RunsKeepInv(actions);
    assert InTurn(Run(actions).fires[j], Run(actions).fires[k]);
  }

  /** Two requests that have both seen the item published both go through if and only if the first one approves. */
  lemma BothDecideIff(sys: System, first: nat, second: nat)
    requires first != second && first in sys.reviews && second in sys.reviews
    requires sys.reviews[first].pc == sys.reviews[second].pc == Checked(Published)
    requires sys.reviews[first].item == sys.reviews[second].item
    requires var id := sys.reviews[first].item; id in sys.items && sys.items[id].status == Published
    ensures var after := Step(Step(sys, Move(first)), Move(second));
      |after.fires| == |sys.fires| + 2 <==> sys.reviews[first].decision == Approve
  {
    var one := Step(sys, Move(first));
    assert one.reviews[second] == sys.reviews[second];
  }

  lemma RunOneMore(actions: seq<Action>, a: Action)
    ensures Run(actions + [a]) == Step(Run(actions), a)
  {
    assert (actions + [a])[..|actions|] == actions;
  }

  /** Two requests are opened for a reported published item. */
  function BothOpen(id: ItemId): seq<Action> {
    [Change(id, Published), Report(id)] + [Open(0, ReviewerRole, id, Approve)] + [Open(1, ReviewerRole, id, Approve)]
  }

  /** And both read it. */
  function BothRead(id: ItemId): seq<Action> {
    BothOpen(id) + [Move(0)] + [Move(1)] + [Move(0)] + [Move(1)]
  }

  lemma OpenReached(id: ItemId)
    ensures var review := Review(ReviewerRole, id, Approve, Opened);
      Run(BothOpen(id)) == System(map[id := Item(Published, true, 0, 0)], map[0 := review, 1 := review], [], [])
  {
    RunOneMore([], Change(id, Published));
    assert [] + [Change(id, Published)] == [Change(id, Published)];
    assert [Change(id, Published)] + [Report(id)] == [Change(id, Published), Report(id)];
    RunOneMore([Change(id, Published)], Report(id));
    RunOneMore([Change(id, Published), Report(id)], Open(0, ReviewerRole, id, Approve));
    RunOneMore([Change(id, Published), Report(id)] + [Open(0, ReviewerRole, id, Approve)],
        Open(1, ReviewerRole, id, Approve));
  }

  lemma BothReadReached(id: ItemId)
    requires id.contentType != PollContent
    ensures var review := Review(ReviewerRole, id, Approve, Checked(Published));
      Run(BothRead(id)) == System(map[id := Item(Published, true, 0, 0)], map[0 := review, 1 := review], [], [])
  {
    OpenReached(id);
    RunOneMore(BothOpen(id), Move(0));
    RunOneMore(BothOpen(id) + [Move(0)], Move(1));
    RunOneMore(BothOpen(id) + [Move(0)] + [Move(1)], Move(0));
    RunOneMore(BothOpen(id) + [Move(0)] + [Move(1)] + [Move(0)], Move(1));
  }

  /** A run in which reported content is approved twice, and logged twice as published before and after. */
  lemma ReportedContentCanBeApprovedTwice(id: ItemId)
    requires id.contentType != PollContent
    ensures var log := Run(BothRead(id) + [Move(0)] + [Move(1)] + [Move(0)] + [Move(1)]).log;
      |log| == 2 && log[0].request != log[1].request
      && forall k :: 0 <= k < 2 ==> log[k].item == id && log[k].previous == log[k].next == Published
  {
    BothReadReached(id);
    RunOneMore(BothRead(id), Move(0));
    RunOneMore(BothRead(id) + [Move(0)], Move(1));
    RunOneMore(BothRead(id) + [Move(0)] + [Move(1)], Move(0));
    RunOneMore(BothRead(id) + [Move(0)] + [Move(1)] + [Move(0)], Move(1));
  }

  // ---------------------------------------------------------------- the service method

  /** What the other requests and the rest of the system made of the items between two steps of this one. */
  datatype Meanwhile = Meanwhile(beforeReports: map<ItemId, Item>, beforeUpdate: map<ItemId, Item>)

  class ReviewDesk {
    var items: map<ItemId, Item>
    var log: seq<Entry>

    constructor ()
      ensures items == map[] && log == []
    {
      items, log := map[], [];
    }

    /** The conditional update of the item's own table. */
    method UpdateReviewStatus(id: ItemId, expected: Status, decision: Decision) returns (updated: bool)
      modifies this`items
      ensures updated == (id in old(items) && Decide(old(items)[id], expected, decision).Some?)
      ensures items == if updated then old(items)[id := Decide(old(items)[id], expected, decision).value]
          else old(items)
    {
      updated := id in items && items[id].status == expected;
      if updated {
        items := items[id := items[id].(status := StatusForAction(decision))];
      }
    }

    /** applyDecision: a success means that the status the item held at the update is the one in the log. */
    method ApplyDecision(role: Role, id: ItemId, decision: Decision, request: nat, fire: nat, others: Meanwhile)
        returns (refusal: Option<Refusal>)
      modifies this
      ensures refusal == Some(Forbidden) <==> role == ViewerRole
      ensures refusal == Some(ContentNotFound) <==> role != ViewerRole && id !in old(items)
      ensures refusal.None? <==>
        && role != ViewerRole && id in old(items)
        && var seen := old(items)[id].status;
           && (|| seen == ReviewRequired
               || (seen == Published && id.contentType != PollContent && id in others.beforeReports
                   && others.beforeReports[id].reported))
           && id in others.beforeUpdate && others.beforeUpdate[id].status == seen
      ensures refusal.Some? ==> log == old(log)
      ensures refusal.None? ==>
        && id in others.beforeUpdate
        && var held := others.beforeUpdate[id].status;
           && (held == ReviewRequired || (held == Published && id.contentType != PollContent))
           && log == old(log) + [Entry(id, request, decision, held, StatusForAction(decision), fire)]
           && items == others.beforeUpdate[id := others.beforeUpdate[id].(status := StatusForAction(decision),
                                                reported := held != Published && others.beforeUpdate[id].reported)]
    {
      var read := AfterRead(role, id, items);
      if read.Refused? {
        return Some(read.reason);
      }
      items := others.beforeReports;
      if read.SawPublished? {
        read := AfterReports(id, items);
        if read.Refused? {
          return Some(read.reason);
        }
      }
      items := others.beforeUpdate;
      var updated := UpdateReviewStatus(id, read.seen, decision);
      if !updated {
        return Some(NotReviewable);
      }
      log := log + [Entry(id, request, decision, read.seen, StatusForAction(decision), fire)];
      if read.seen == Published {
        items := items[id := items[id].(reported := false)];
      }
      return None;
    }
  }
}
