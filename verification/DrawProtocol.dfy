/** Server-side processing. Every draw of the table asks the server for a page under a new draw
    number; the response echoes the number, and a response older than the latest request is
    dropped. The table is a class; the network around it is a state machine that may delay,
    reorder, duplicate or lose messages. */
module DrawProtocol {
  import opened IndexLists

  // A page of rows with the record counts the server sends along.
  datatype Page = Page(rows: seq<int>, total: int, filtered: int)

  // draw is 0 when the server sends no draw number back.
  datatype Response = Response(draw: nat, page: Page)

  // What a draw did: nothing was sent, or a request with a draw number.
  datatype Sent = Nothing | Request(draw: nat)

  // The part of the settings the protocol works on.
  datatype Client = Client(iDraw: nat, deferLoading: bool, shown: Page)

  function Drawn(c: Client): (Client, Sent) {
    if c.deferLoading then (c.(iDraw := c.iDraw + 1, deferLoading := false), Nothing)
    else (c.(iDraw := c.iDraw + 1), Request(c.iDraw + 1))
  }

  predicate OutOfSequence(c: Client, r: Response) {
    r.draw != 0 && r.draw < c.iDraw
  }

  function Received(c: Client, r: Response): Client {
    if OutOfSequence(c, r) then c
    else c.(iDraw := if r.draw != 0 then r.draw else c.iDraw, shown := r.page)
  }

  class ServerTable {
    var iDraw: nat
    var bAjaxDataGet: bool
    var bDeferLoading: bool
    var aoData: seq<int>
    var aiDisplayMaster: seq<nat>
    var aiDisplay: seq<nat>
    var iRecordsTotal: int
    var iRecordsDisplay: int

    // Between calls every received row is displayed, in the order received.
    predicate Valid()
      reads this
    {
      bAjaxDataGet && aiDisplayMaster == aiDisplay == Range(|aoData|)
    }

    function State(): Client
      reads this
    {
      Client(iDraw, bDeferLoading, Page(aoData, iRecordsTotal, iRecordsDisplay))
    }

    constructor (deferLoading: bool)
      ensures Valid() && State() == Client(0, deferLoading, Page([], 0, 0))
    {
      iDraw, bAjaxDataGet, bDeferLoading := 0, true, deferLoading;
      aoData, aiDisplayMaster, aiDisplay := [], [], [];
      iRecordsTotal, iRecordsDisplay := 0, 0;
    }

    // The data source part of a draw; bDeferLoading skips the first request, and a draw from a
    // response itself sends nothing.
    method Draw() returns (sent: Sent)
      modifies this`iDraw, this`bDeferLoading
      ensures bAjaxDataGet || old(bDeferLoading) ==> (State(), sent) == Drawn(old(State()))
      ensures !bAjaxDataGet && !old(bDeferLoading) ==> State() == old(State()) && sent == Nothing
    {
      sent := Nothing;
      if bDeferLoading {
        bDeferLoading := false;
        iDraw := iDraw + 1;
      } else {
        sent := AjaxUpdate();
      }
    }

    method AjaxUpdate() returns (sent: Sent)
      modifies this`iDraw
      ensures if bAjaxDataGet then iDraw == old(iDraw) + 1 && sent == Request(iDraw)
              else iDraw == old(iDraw) && sent == Nothing
    {
      sent := Nothing;
      if bAjaxDataGet {
        iDraw := iDraw + 1;
        sent := Request(iDraw);
      }
    }

    method AddData(row: int)
      modifies this`aoData, this`aiDisplayMaster
      ensures aoData == old(aoData) + [row] && aiDisplayMaster == old(aiDisplayMaster) + [|old(aoData)|]
    {
      aiDisplayMaster := aiDisplayMaster + [|aoData|];
      aoData := aoData + [row];
    }

    method AjaxUpdateDraw(json: Response)
      requires Valid() && !bDeferLoading
      modifies this
      ensures Valid() && State() == Received(old(State()), json)
    {
      if json.draw != 0 {
        // A response that answers no pending draw is dropped.
        if json.draw < iDraw {
          return;
        }
        iDraw := json.draw;
      }
      aoData, aiDisplayMaster, aiDisplay := [], [], [];
      iRecordsTotal := json.page.total;
      iRecordsDisplay := json.page.filtered;
      for i := 0 to |json.page.rows|
        invariant aoData == json.page.rows[..i] && aiDisplayMaster == Range(i)
        invariant bAjaxDataGet && !bDeferLoading && iDraw == (if json.draw != 0 then json.draw else old(iDraw))
        invariant iRecordsTotal == json.page.total && iRecordsDisplay == json.page.filtered
      {
        AddData(json.page.rows[i]);
        assert json.page.rows[..i + 1] == json.page.rows[..i] + [json.page.rows[i]];
      }
      aiDisplay := aiDisplayMaster;
      bAjaxDataGet := false;
      var sent := Draw();
      bAjaxDataGet := true;
    }
  }

  // The table, the requests on their way, the responses on theirs, and the draw numbers of the
  // requests whose responses have been applied so far. A server either echoes draw numbers or not.
  datatype World = World(client: Client, echoes: bool, requests: set<nat>, responses: map<nat, Page>, applied: seq<nat>)

  predicate Init(w: World) {
    w.client.iDraw == 0 && w.requests == {} && w.responses == map[] && w.applied == []
  }

  // A redraw, the server answering some request, or some response arriving; messages stay
  // available, so that any may come late, again, or never.
  datatype Step = Redraw | Answer(draw: nat, page: Page) | Deliver(draw: nat)

  function Sending(w: World, draw: nat): Response
    requires draw in w.responses
  {
    Response(if w.echoes then draw else 0, w.responses[draw])
  }

  predicate Possible(w: World, step: Step) {
    match step
    case Redraw => true
    case Answer(draw, page) => draw in w.requests && draw !in w.responses
    case Deliver(draw) => draw in w.responses
  }

  function Next(w: World, step: Step): World
    requires Possible(w, step)
  {
    match step
    case Redraw =>
      var d := Drawn(w.client);
      w.(client := d.0, requests := if d.1.Request? then w.requests + {d.1.draw} else w.requests)
    case Answer(draw, page) => w.(responses := w.responses[draw := page])
    case Deliver(draw) =>
      var r := Sending(w, draw);
      w.(client := Received(w.client, r),
         applied := if OutOfSequence(w.client, r) then w.applied else w.applied + [draw])
  }

  predicate Run(ws: seq<World>, steps: seq<Step>) {
    |ws| == |steps| + 1 && Init(ws[0]) &&
    forall i :: 0 <= i < |steps| ==> Possible(ws[i], steps[i]) && ws[i + 1] == Next(ws[i], steps[i])
  }

  // No draw number is ahead of the latest request, and the client shows the last applied page.
  predicate Inv(w: World) {
    (forall d :: d in w.requests ==> 0 < d <= w.client.iDraw) &&
    (forall d :: d in w.responses ==> d in w.requests) &&
    (forall k :: 0 <= k < |w.applied| ==> w.applied[k] in w.responses) &&
    (w.applied != [] ==> w.client.shown == w.responses[w.applied[|w.applied| - 1]]) &&
    (w.requests != {} ==> !w.client.deferLoading)
  }

  predicate NonDecreasing(s: seq<nat>) {
    forall j, k :: 0 <= j < k < |s| ==> s[j] <= s[k]
  }

  lemma InvStep(w: World, step: Step)
    requires Inv(w) && Possible(w, step)
    ensures Inv(Next(w, step)) && Next(w, step).echoes == w.echoes
    ensures w.echoes && NonDecreasing(w.applied) ==> NonDecreasing(Next(w, step).applied)
  {
  }

  lemma {:induction false} InvRun(ws: seq<World>, steps: seq<Step>, i: nat)
    requires Run(ws, steps) && i < |ws|
    ensures Inv(ws[i]) && ws[i].echoes == ws[0].echoes && (ws[0].echoes ==> NonDecreasing(ws[i].applied))
  {
    if i > 0 {
      InvRun(ws, steps, i - 1);
      InvStep(ws[i - 1], steps[i - 1]);
    }
  }

  // In every reachable state a response is applied exactly when no newer request has been issued,
  // if the server echoes draw numbers; if it does not, every response is applied.
  lemma AppliedOnlyIfLatest(ws: seq<World>, steps: seq<Step>, i: nat, draw: nat)
    requires Run(ws, steps) && i < |ws| && draw in ws[i].responses
    ensures !OutOfSequence(ws[i].client, Sending(ws[i], draw)) <==> !ws[0].echoes || draw == ws[i].client.iDraw
    ensures ws[0].echoes ==> NonDecreasing(ws[i].applied)
    ensures ws[i].applied != [] ==>
      ws[i].applied[|ws[i].applied| - 1] in ws[i].responses && ws[i].client.shown == ws[i].responses[ws[i].applied[|ws[i].applied| - 1]]
    ensures ws[0].echoes && draw != ws[i].client.iDraw ==> exists d :: d in ws[i].requests && draw < d
  {
    InvRun(ws, steps, i);
    if ws[0].echoes && draw != ws[i].client.iDraw {
      LatestRequested(ws, steps, i);
      assert ws[i].client.iDraw in ws[i].requests;
    }
  }

  // Once anything has been requested, the draw number is that of the latest request.
  lemma {:induction false} LatestRequested(ws: seq<World>, steps: seq<Step>, i: nat)
    requires Run(ws, steps) && i < |ws|
    ensures ws[i].requests != {} ==> ws[i].client.iDraw in ws[i].requests
  {
    if i > 0 {
      LatestRequested(ws, steps, i - 1);
      InvRun(ws, steps, i - 1);
      assert Possible(ws[i - 1], steps[i - 1]) && ws[i] == Next(ws[i - 1], steps[i - 1]);
    }
  }

  // After the latest response has been applied, nothing but a new request changes the page shown:
  // stale responses are dropped, and the latest one again shows the same page.
  lemma {:induction false} LatestStays(ws: seq<World>, steps: seq<Step>, i: nat, j: nat)
    requires Run(ws, steps) && ws[0].echoes && i <= j < |ws|
    requires ws[i].applied != [] && ws[i].applied[|ws[i].applied| - 1] == ws[i].client.iDraw
    requires forall k :: i <= k < j ==> steps[k] != Redraw
    ensures ws[j].client == ws[i].client
    ensures ws[j].applied != [] && ws[j].applied[|ws[j].applied| - 1] == ws[i].client.iDraw
    decreases j - i
  {
    if i < j {
      LatestStays(ws, steps, i, j - 1);
      InvRun(ws, steps, j - 1);
      InvRun(ws, steps, j);
      assert Possible(ws[j - 1], steps[j - 1]) && ws[j] == Next(ws[j - 1], steps[j - 1]);
    }
  }

  // Without echoes the protection is void: two requests, and the older response wins by coming last.
  lemma StaleWithoutEcho(p: Page, q: Page) returns (ws: seq<World>, steps: seq<Step>)
    ensures Run(ws, steps) && !ws[0].echoes
    ensures var w := ws[|steps|]; w.client.iDraw == 2 && w.responses == map[1 := p, 2 := q] && w.client.shown == p
  {
    steps := [Redraw, Redraw, Answer(1, p), Answer(2, q), Deliver(2), Deliver(1)];
    var w0 := World(Client(0, false, Page([], 0, 0)), false, {}, map[], []);
    var w1 := Next(w0, steps[0]);
    var w2 := Next(w1, steps[1]);
    var w3 := Next(w2, steps[2]);
    var w4 := Next(w3, steps[3]);
    var w5 := Next(w4, steps[4]);
    var w6 := Next(w5, steps[5]);
    ws := [w0, w1, w2, w3, w4, w5, w6];
  }

  // Deferred loading skips one request: the second draw sends request number 2, the third number 3.
  lemma DeferredOnce(page: Page, deferLoading: bool)
    ensures var (c1, s1) := Drawn(Client(0, deferLoading, page));
      var (c2, s2) := Drawn(c1);
      s1 == (if deferLoading then Nothing else Request(1)) && s2 == Request(2) && Drawn(c2).1 == Request(3) && c2.shown == page
  {
  }
}
