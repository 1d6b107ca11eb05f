/** The bot's handlers over the prize store. Everything the bot sends is
    returned as a `Send` value; an exception that escapes a handler is a
    `Failure`. Directory listings, file existence and failing chats are
    parameters. */
module Bot {
  import opened Wrappers
  import opened Tables
  import Rating
  import RatingText
  import Decimal
  import Collage
  import opened Store

  const ImgDir: string := "img"
  const HiddenImgDir: string := "hidden_img"

  /** The fixed texts of the bot; their wording is not modelled. */
  datatype Reply =
    | AlreadyRegistered | Welcome | NoPrizesYet | CollageFailed
    | Congratulations | AlreadyGotIt | TooLate

  /** The inline keyboard of a drop: one claim button and its callback data. */
  datatype Markup = ClaimButton(callbackData: string)

  /** A message the bot sends to a chat. */
  datatype Send =
    | Text(chatId: int, reply: Reply)
    | Table(chatId: int, text: string)
    | Photo(chatId: int, path: string, caption: Option<Reply>, markup: Option<Markup>)
    | CollagePhoto(chatId: int, canvas: array2<Option<string>>)

  /** Exceptions the handlers let escape. */
  datatype Fault =
    | MalformedPayload      // int(call.data) raises ValueError
    | PrizeNotFound         // get_prize_img indexes a missing row
    | FileMissing(path: string)
    | SendFailed(chatId: int)

  function PathIn(dir: string, name: string): string {
    dir + "/" + name
  }

  /** `gen_markup`: the button's callback data is `str(prize_id)`. */
  function GenMarkup(prizeId: int): (markup: Markup)
    ensures |markup.callbackData| >= 1
    ensures prizeId >= 0 ==> Decimal.AllDigits(markup.callbackData)
  {
    ClaimButton(Decimal.IntToString(prizeId))
  }

  /** The callback handler's `int(call.data)` recovers the id `gen_markup` wrote. */
  lemma MarkupRoundTrip(prizeId: int)
    ensures Decimal.ParseInt(GenMarkup(prizeId).callbackData) == Some(prizeId)
  {
    Decimal.IntRoundTrip(prizeId);
  }

  // ----- /start -----

  /** `handle_start`: a registered chat is told so and nothing changes; a new
      chat is added with its handle and welcomed. */
  method HandleStart(db: DatabaseManager, chatId: int, userName: Option<string>) returns (s: Send)
    requires db.Valid()
    modifies db
    ensures db.Valid()
    ensures old(Registered(db.users, chatId)) ==>
      s == Text(chatId, AlreadyRegistered) && db.users == old(db.users)
    ensures !old(Registered(db.users, chatId)) ==>
      s == Text(chatId, Welcome) && db.users == old(db.users) + [User(chatId, userName)]
    ensures db.prizes == old(db.prizes) && db.winners == old(db.winners)
  {
    if chatId in db.GetUsers() {
      s := Text(chatId, AlreadyRegistered);
    } else {
      db.AddUser(chatId, userName);
      s := Text(chatId, Welcome);
    }
  }

  // ----- /rating -----

  /** `handle_rating`, with the corrected row formatting: the header and one
      line per top row. */
  method HandleRating(db: DatabaseManager, chatId: int) returns (s: Send)
    ensures s == Table(chatId, RatingText.Text(Rating.RatingRows(db.users, db.winners)))
    ensures |RatingText.Lines(Rating.RatingRows(db.users, db.winners))| <= Rating.Limit
  {
    var rows := db.GetRating();
    Rating.TopStandingsSorted(db.users, db.winners);
    s := Table(chatId, RatingText.Text(rows));
  }

  /** A registered user without a handle among the rated rows makes the
      source's `/rating` raise. */
  lemma UnnamedWinnerBreaksRating(t: string)
    ensures var us := [User(7, None)];
            var ws := [Winner(7, 1, t)];
            Rating.RatingRows(us, ws) == [Rating.RatingRow(None, 1)] &&
            RatingText.LinesAsWritten(Rating.RatingRows(us, ws)).Failure?
  {
    var us := [User(7, None)];
    var ws := [Winner(7, 1, t)];
    assert UserColumn(ws) == [7];
    assert Rating.WinsOf(ws, 7) == 1;
    var x := Rating.Standing(7, None, 1);
    assert Rating.Standings(us, ws) == [x];
    assert Rating.SortDesc([x]) == [x];
  }

  // ----- /get_my_score -----

  /** The comprehension at `get_my_score`: for each name in the listing of
      `img/`, the original when it was won, the hidden copy otherwise. */
  function ScorePaths(listing: seq<string>, won: seq<string>): (paths: seq<string>)
    ensures |paths| == |listing|
  {
    seq(|listing|, i requires 0 <= i < |listing| =>
      if listing[i] in won then PathIn(ImgDir, listing[i]) else PathIn(HiddenImgDir, listing[i]))
  }

  lemma PathInInjective(dir: string, a: string, b: string)
    requires PathIn(dir, a) == PathIn(dir, b)
    ensures a == b
  {
    assert a == PathIn(dir, a)[|dir| + 1..];
    assert b == PathIn(dir, b)[|dir| + 1..];
  }

  /** The collage shows the original of a name exactly when it is listed and
      won, and the hidden copy exactly when it is listed and not won. */
  lemma ScorePathsChoose(listing: seq<string>, won: seq<string>, name: string)
    ensures PathIn(ImgDir, name) in ScorePaths(listing, won) <==> name in listing && name in won
    ensures PathIn(HiddenImgDir, name) in ScorePaths(listing, won) <==> name in listing && name !in won
  {
    var paths := ScorePaths(listing, won);
    if PathIn(ImgDir, name) in paths {
      var i :| 0 <= i < |paths| && paths[i] == PathIn(ImgDir, name);
      assert PathIn(ImgDir, name)[0] == 'i';
      assert PathIn(HiddenImgDir, listing[i])[0] == 'h';
      PathInInjective(ImgDir, name, listing[i]);
    }
    if PathIn(HiddenImgDir, name) in paths {
      var i :| 0 <= i < |paths| && paths[i] == PathIn(HiddenImgDir, name);
      assert PathIn(HiddenImgDir, name)[0] == 'h';
      assert PathIn(ImgDir, listing[i])[0] == 'i';
      PathInInjective(HiddenImgDir, name, listing[i]);
    }
    if name in listing {
      var i :| 0 <= i < |listing| && listing[i] == name;
      assert paths[i] == if name in won then PathIn(ImgDir, name) else PathIn(HiddenImgDir, name);
    }
  }

  /** `get_my_score`: no prizes yet, no collage, or the collage photo. */
  method GetMyScore(db: DatabaseManager, chatId: int, listing: seq<string>, present: set<string>)
    returns (s: Send)
    ensures var won := WonImages(db.winners, db.prizes, chatId);
            var images := Collage.Existing(ScorePaths(listing, won), present);
            && (won == [] ==> s == Text(chatId, NoPrizesYet))
            && (won != [] && images == [] ==> s == Text(chatId, CollageFailed))
            && (won != [] && images != [] ==>
                  s.CollagePhoto? && s.chatId == chatId && Collage.Shows(s.canvas, images))
  {
    var prizes := db.GetWinnersImg(chatId);
    if prizes == [] {
      return Text(chatId, NoPrizesYet);
    }
    var paths := ScorePaths(listing, prizes);
    var collage := Collage.CreateCollage(paths, present);
    if collage.None? {
      return Text(chatId, CollageFailed);
    }
    return CollagePhoto(chatId, collage.value);
  }

  // ----- the claim callback -----

  /** `callback_query`: below three winners the claim goes to `add_winner`;
      a new winner gets the original photo, a repeated one "already got it";
      from three winners on the answer is "too late". */
  method CallbackQuery(db: DatabaseManager, data: string, chatId: int, winTime: string, imgFiles: set<string>)
    returns (out: Result<Send, Fault>)
    requires db.Valid()
    modifies db
    ensures db.Valid()
    ensures db.users == old(db.users) && db.prizes == old(db.prizes)
    ensures Decimal.ParseInt(data).None? ==>
      out == Failure(MalformedPayload) && db.winners == old(db.winners)
    ensures Decimal.ParseInt(data).Some? ==>
      var p := Decimal.ParseInt(data).value;
      && db.winners == Claim(old(db.winners), chatId, p, winTime)
      && (old(WinnersCount(db.winners, p)) >= 3 ==> out == Success(Text(chatId, TooLate)))
      && (old(WinnersCount(db.winners, p)) < 3 && old(HasClaim(db.winners, chatId, p)) ==>
            out == Success(Text(chatId, AlreadyGotIt)))
      && (old(WinnersCount(db.winners, p)) < 3 && !old(HasClaim(db.winners, chatId, p)) ==>
            out == match PrizeImage(db.prizes, p)
                   case None => Failure(PrizeNotFound)
                   case Some(img) =>
                     if img in imgFiles then Success(Photo(chatId, PathIn(ImgDir, img), Some(Congratulations), None))
                     else Failure(FileMissing(PathIn(ImgDir, img))))
    ensures old(AtMostThreePerPrize(db.winners)) ==> AtMostThreePerPrize(db.winners)
  {
    ghost var before := db.winners;
    var parsed := Decimal.ParseInt(data);
    if parsed.None? {
      return Failure(MalformedPayload);
    }
    var prizeId := parsed.value;
    if AtMostThreePerPrize(before) {
      ClaimKeepsInvariants(before, chatId, prizeId, winTime);
    }
    if db.GetWinnersCount(prizeId) < 3 {
      var res := db.AddWinner(chatId, prizeId, winTime);
      if res != 0 {
        var img := db.GetPrizeImg(prizeId);
        if img.None? {
          return Failure(PrizeNotFound);
        }
        if img.value !in imgFiles {
          return Failure(FileMissing(PathIn(ImgDir, img.value)));
        }
        out := Success(Photo(chatId, PathIn(ImgDir, img.value), Some(Congratulations), None));
      } else {
        out := Success(Text(chatId, AlreadyGotIt));
      }
    } else {
      out := Success(Text(chatId, TooLate));
    }
  }

  // ----- the hourly drop -----

  /** The photo every registered chat receives in a drop. */
  function DropPhoto(chatId: int, image: string, prizeId: int): (photo: Send)
    ensures photo.Photo? && photo.chatId == chatId && photo.path == PathIn(HiddenImgDir, image)
    ensures photo.markup.Some? && Decimal.ParseInt(photo.markup.value.callbackData) == Some(prizeId)
  {
    MarkupRoundTrip(prizeId);
    Photo(chatId, PathIn(HiddenImgDir, image), None, Some(GenMarkup(prizeId)))
  }

  /** The send loop of `send_message`: one photo per recipient, in order,
      stopping at the first chat the send fails for. */
  method Broadcast(recipients: seq<int>, image: string, prizeId: int, unreachable: set<int>)
    returns (sent: seq<Send>, failedAt: Option<nat>)
    ensures failedAt.None? <==> forall i :: 0 <= i < |recipients| ==> recipients[i] !in unreachable
    ensures failedAt.Some? ==>
      failedAt.value < |recipients| && recipients[failedAt.value] in unreachable &&
      forall i :: 0 <= i < failedAt.value ==> recipients[i] !in unreachable
    ensures |sent| == if failedAt.Some? then failedAt.value else |recipients|
    ensures forall i :: 0 <= i < |sent| ==> sent[i] == DropPhoto(recipients[i], image, prizeId)
  {
    sent := [];
    var k := 0;
    while k < |recipients|
      invariant 0 <= k <= |recipients|
      invariant |sent| == k
      invariant forall i :: 0 <= i < k ==> recipients[i] !in unreachable
      invariant forall i :: 0 <= i < k ==> sent[i] == DropPhoto(recipients[i], image, prizeId)
    {
      if recipients[k] in unreachable {
        return sent, Some(k);
      }
      sent := sent + [DropPhoto(recipients[k], image, prizeId)];
      k := k + 1;
    }
    failedAt := None;
  }

  /** What one tick of the hourly job did. */
  datatype TickReport =
    | NoPrize
    | Dropped(prizeId: int, sent: seq<Send>, fault: Option<Fault>)

  /** `send_message`: pick an unused prize, mark it used, obscure its image
      and send the obscured photo with a claim button to every registered
      chat. Without an unused prize nothing happens. The prize stays used
      whatever fails afterwards. */
  method SendMessage(db: DatabaseManager, imgFiles: set<string>, unreachable: set<int>)
    returns (report: TickReport)
    requires db.Valid()
    modifies db
    ensures db.Valid()
    ensures db.users == old(db.users) && db.winners == old(db.winners)
    ensures old(FirstUnused(db.prizes)).None? ==> report == NoPrize && db.prizes == old(db.prizes)
    ensures old(FirstUnused(db.prizes)).Some? ==>
      var p := old(FirstUnused(db.prizes)).value;
      && db.prizes == MarkUsed(old(db.prizes), p.prizeId)
      && report.Dropped? && report.prizeId == p.prizeId
      && (p.image !in imgFiles ==>
            report.sent == [] && report.fault == Some(FileMissing(PathIn(ImgDir, p.image))))
      && (p.image in imgFiles ==>
            var ids := UserIds(db.users);
            && |report.sent| <= |ids|
            && (forall i :: 0 <= i < |report.sent| ==> report.sent[i] == DropPhoto(ids[i], p.image, p.prizeId))
            && (forall i :: 0 <= i < |report.sent| ==> ids[i] !in unreachable)
            && (report.fault.None? <==> |report.sent| == |ids|)
            && (report.fault.None? <==> forall i :: 0 <= i < |ids| ==> ids[i] !in unreachable)
            && (report.fault.Some? ==>
                  report.fault == Some(SendFailed(ids[|report.sent|])) && ids[|report.sent|] in unreachable))
  {
    var prize := db.GetRandomPrize();
    if prize.None? {
      return NoPrize;
    }
    var prizeId, img := prize.value.prizeId, prize.value.image;
    db.MarkPrizeUsed(prizeId);
    if img !in imgFiles {
      return Dropped(prizeId, [], Some(FileMissing(PathIn(ImgDir, img))));
    }
    var recipients := db.GetUsers();
    var sent, failedAt := Broadcast(recipients, img, prizeId, unreachable);
    var fault := if failedAt.Some? then Some(SendFailed(recipients[failedAt.value])) else None;
    return Dropped(prizeId, sent, fault);
  }
}
