/** Resource-aware choice of a worker for one instance. */
module Scheduler {
  import opened Basics

  datatype Worker = Worker(
    id: string,
    ip: string,
    platforms: seq<string>,
    cpu: real,
    ram: int,
    disk: int,
    limit: int,
    portLo: int,
    portHi: int,
    status: string,
    draining: bool,
    features: set<string>,
    failures: int,
    usedCpu: real,
    usedRam: int,
    usedDisk: int,
    count: int,
    usedPorts: set<int>)
  {
    /** The free ports of the range, in ascending order. */
    function AvailablePorts(): seq<int> {
      FreePorts(portLo, portHi, usedPorts)
    }
  }

  datatype Request = Request(platform: string, cpu: real, memory: int, disk: int, features: seq<string>)

  datatype Placement = Placement(workerId: string, ip: string, port: int, score: real)

  function FreePorts(lo: int, hi: int, used: set<int>): (ports: seq<int>)
    ensures forall p :: p in ports <==> lo <= p <= hi && p !in used
    ensures forall i, j :: 0 <= i < j < |ports| ==> ports[i] < ports[j]
    decreases hi - lo
  {
    if lo > hi then []
    else
      var rest := FreePorts(lo + 1, hi, used);
      assert forall i :: 0 <= i < |rest| ==> rest[i] in rest;
      if lo in used then rest else [lo] + rest
  }

  // ---- platforms ----

  /** The weight of running the image on the worker; none when it cannot run there. */
  function PlatformWeight(w: Worker, platform: string): Option<real> {
    var requested := Trim(platform);
    if requested == "" || requested == "multi" then Some(1.0)
    else if requested in w.platforms then Some(1.0)
    else if requested + "-emulated" in w.platforms then Some(0.55)
    else None
  }

  // ---- rejections ----

  datatype Reason =
    | NotReady
    | Draining
    | Unsupported(platform: string)
    | MissingFeature(feature: string)
    | InsufficientCpu
    | InsufficientRam
    | InsufficientDisk
    | LimitReached
    | NoFreePorts

  /** What it means for a reason to apply to a worker. */
  ghost predicate Applies(r: Reason, w: Worker, req: Request) {
    match r
    case NotReady => w.status != "ready"
    case Draining => w.draining
    case Unsupported(p) => p == req.platform && PlatformWeight(w, req.platform).None?
    case MissingFeature(f) => f in req.features && f !in w.features
    case InsufficientCpu => w.cpu - w.usedCpu < req.cpu
    case InsufficientRam => w.ram - w.usedRam < req.memory
    case InsufficientDisk => w.disk - w.usedDisk < req.disk
    case LimitReached => w.count >= w.limit
    case NoFreePorts => forall p :: w.portLo <= p <= w.portHi ==> p in w.usedPorts
  }

  predicate Eligible(w: Worker, req: Request) {
    && w.status == "ready" && !w.draining && PlatformWeight(w, req.platform).Some?
    && (forall f :: f in req.features ==> f in w.features)
    && w.cpu - w.usedCpu >= req.cpu && w.ram - w.usedRam >= req.memory && w.disk - w.usedDisk >= req.disk
    && w.count < w.limit && w.AvailablePorts() != []
  }

  function When(b: bool, r: Reason): seq<Reason> {
    if b then [r] else []
  }

  function MissingFeatures(w: Worker, features: seq<string>): seq<Reason> {
    if features == [] then []
    else
      MissingFeatures(w, features[..|features| - 1])
      + When(features[|features| - 1] !in w.features, MissingFeature(features[|features| - 1]))
  }

  function Rejections(w: Worker, req: Request): seq<Reason> {
    When(w.status != "ready", NotReady) + When(w.draining, Draining)
    + When(PlatformWeight(w, req.platform).None?, Unsupported(req.platform))
    + MissingFeatures(w, req.features)
    + Shortages(w, req)
  }

  function Shortages(w: Worker, req: Request): seq<Reason> {
    When(w.cpu - w.usedCpu < req.cpu, InsufficientCpu)
    + When(w.ram - w.usedRam < req.memory, InsufficientRam)
    + When(w.disk - w.usedDisk < req.disk, InsufficientDisk)
    + When(w.count >= w.limit, LimitReached)
    + When(w.AvailablePorts() == [], NoFreePorts)
  }

  lemma {:induction false} MissingFeaturesAre(w: Worker, features: seq<string>)
    ensures forall r :: r in MissingFeatures(w, features) <==> r.MissingFeature? && r.feature in features && r.feature !in w.features
  {
    if features != [] {
      var n := |features| - 1;
      MissingFeaturesAre(w, features[..n]);
      assert features == features[..n] + [features[n]];
    }
  }

  lemma NoPortsLeft(w: Worker)
    ensures w.AvailablePorts() == [] <==> forall p :: w.portLo <= p <= w.portHi ==> p in w.usedPorts
  {
    if w.AvailablePorts() != [] {
      assert w.AvailablePorts()[0] in w.AvailablePorts();
    }
  }

  /** Exactly the reasons that apply are collected. */
  lemma RejectionsApply(w: Worker, req: Request, r: Reason)
    ensures r in Rejections(w, req) <==> Applies(r, w, req)
  {
    hide PlatformWeight, FreePorts, MissingFeatures, Shortages, Applies;
    MissingFeaturesAre(w, req.features);
    ShortagesApply(w, req, r);
    EarlyReasons(w, req, r);
    OtherKinds(w, req, r);
  }

  predicate IsShortage(r: Reason) {
    r.InsufficientCpu? || r.InsufficientRam? || r.InsufficientDisk? || r.LimitReached? || r.NoFreePorts?
  }

  lemma ShortagesApply(w: Worker, req: Request, r: Reason)
    ensures r in Shortages(w, req) <==> IsShortage(r) && Applies(r, w, req)
  {
    NoPortsLeft(w);
    hide PlatformWeight, FreePorts, When;
    WhenHas(w.cpu - w.usedCpu < req.cpu, InsufficientCpu, r);
    WhenHas(w.ram - w.usedRam < req.memory, InsufficientRam, r);
    WhenHas(w.disk - w.usedDisk < req.disk, InsufficientDisk, r);
    WhenHas(w.count >= w.limit, LimitReached, r);
    WhenHas(w.AvailablePorts() == [], NoFreePorts, r);
  }

  lemma WhenHas(b: bool, r: Reason, q: Reason)
    ensures q in When(b, r) <==> b && q == r
  {
  }

  lemma EarlyReasons(w: Worker, req: Request, r: Reason)
    ensures r in When(w.status != "ready", NotReady) + When(w.draining, Draining)
                 + When(PlatformWeight(w, req.platform).None?, Unsupported(req.platform))
            <==> (r.NotReady? || r.Draining? || r.Unsupported?) && Applies(r, w, req)
  {
    hide PlatformWeight;
  }

  lemma OtherKinds(w: Worker, req: Request, r: Reason)
    ensures r.MissingFeature? ==> (Applies(r, w, req) <==> r.feature in req.features && r.feature !in w.features)
  {
    hide PlatformWeight;
  }

  lemma EmptyMeansNone(reasons: seq<Reason>)
    ensures reasons == [] <==> forall r :: r !in reasons
  {
    if reasons != [] {
      assert reasons[0] in reasons;
    }
  }

  /** A worker is eligible when nothing rejects it. */
  lemma EligibleUnrejected(w: Worker, req: Request)
    ensures Eligible(w, req) <==> Rejections(w, req) == []
  {
    hide PlatformWeight, FreePorts, MissingFeatures;
    MissingFeaturesAre(w, req.features);
    EmptyMeansNone(MissingFeatures(w, req.features));
    if !(forall f :: f in req.features ==> f in w.features) {
      var f :| f in req.features && f !in w.features;
      assert MissingFeature(f) in MissingFeatures(w, req.features);
    }
  }

  method MissingFeatureReasons(w: Worker, features: seq<string>) returns (reasons: seq<Reason>)
    ensures reasons == MissingFeatures(w, features)
  {
    reasons := [];
    for i := 0 to |features|
      invariant reasons == MissingFeatures(w, features[..i])
    {
      assert features[..i + 1][..i] == features[..i];
      if features[i] !in w.features {
        reasons := reasons + [MissingFeature(features[i])];
      }
    }
    assert features[..|features|] == features;
  }

  method ShortageReasons(w: Worker, req: Request) returns (reasons: seq<Reason>)
    ensures reasons == Shortages(w, req)
  {
    reasons := [];
    if w.cpu - w.usedCpu < req.cpu {
      reasons := reasons + [InsufficientCpu];
    }
    if w.ram - w.usedRam < req.memory {
      reasons := reasons + [InsufficientRam];
    }
    assert reasons == When(w.cpu - w.usedCpu < req.cpu, InsufficientCpu) + When(w.ram - w.usedRam < req.memory, InsufficientRam);
    ghost var memory := reasons;
    if w.disk - w.usedDisk < req.disk {
      reasons := reasons + [InsufficientDisk];
    }
    assert reasons == memory + When(w.disk - w.usedDisk < req.disk, InsufficientDisk);
    ghost var disk := reasons;
    if w.count >= w.limit {
      reasons := reasons + [LimitReached];
    }
    assert reasons == disk + When(w.count >= w.limit, LimitReached);
    if w.AvailablePorts() == [] {
      reasons := reasons + [NoFreePorts];
    }
  }

  /** Appends each reason in the order the checks are made. */
  method HardRejections(w: Worker, req: Request) returns (reasons: seq<Reason>)
    ensures reasons == Rejections(w, req)
  {
    hide PlatformWeight, MissingFeatures, Shortages;
    reasons := [];
    if w.status != "ready" {
      reasons := reasons + [NotReady];
    }
    if w.draining {
      reasons := reasons + [Draining];
    }
    assert reasons == When(w.status != "ready", NotReady) + When(w.draining, Draining);
    ghost var state := reasons;
    if PlatformWeight(w, req.platform).None? {
      reasons := reasons + [Unsupported(req.platform)];
    }
    assert reasons == state + When(PlatformWeight(w, req.platform).None?, Unsupported(req.platform));
    var missing := MissingFeatureReasons(w, req.features);
    var shortages := ShortageReasons(w, req);
    reasons := reasons + missing + shortages;
  }

  // ---- score ----

  function Max(a: real, b: real): real {
    if a >= b then a else b
  }

  function Min(a: real, b: real): real {
    if a <= b then a else b
  }

  function FreeRatio(total: real, used: real): real {
    Max(0.0, (total - used) / Max(total, 1.0))
  }

  function Score(w: Worker, req: Request): real {
    var arch := PlatformWeight(w, req.platform);
    FreeRatio(w.cpu, w.usedCpu) * 0.30
    + FreeRatio(w.ram as real, w.usedRam as real) * 0.35
    + FreeRatio(w.disk as real, w.usedDisk as real) * 0.10
    + (1.0 - Min(1.0, w.count as real / Max(w.limit as real, 1.0))) * 0.15
    + (if arch.Some? then arch.value else 0.0) * 0.10
    - Min(0.4, w.failures as real * 0.05)
  }

  /** Without any load, on a worker that offers at least one unit of everything. */
  ghost predicate Idle(w: Worker) {
    && w.cpu >= 1.0 && w.ram >= 1 && w.disk >= 1 && w.limit >= 1
    && w.usedCpu == 0.0 && w.usedRam == 0 && w.usedDisk == 0 && w.count == 0 && w.failures == 0
  }

  /** An idle worker scores 1 natively, 0.955 emulating and 0.9 where it can do neither; using up a
      resource costs its weight, a failure 0.05. */
  lemma ScoreWeights(w: Worker, req: Request, failures: nat)
    requires Idle(w)
    ensures Score(w, req) == var p := Trim(req.platform);
                             if p == "" || p == "multi" || p in w.platforms then 1.0
                             else if p + "-emulated" in w.platforms then 0.955 else 0.9
    ensures Score(w.(usedCpu := w.cpu), req) == Score(w, req) - 0.30
    ensures Score(w.(usedRam := w.ram), req) == Score(w, req) - 0.35
    ensures Score(w.(usedDisk := w.disk), req) == Score(w, req) - 0.10
    ensures Score(w.(count := w.limit), req) == Score(w, req) - 0.15
    ensures Score(w.(failures := failures), req) == Score(w, req) - Min(0.4, failures as real * 0.05)
  {
    hide Trim;
    OneOf(w.cpu);
    OneOf(w.ram as real);
    OneOf(w.disk as real);
    OneOf(w.limit as real);
  }

  lemma OneOf(total: real)
    requires total >= 1.0
    ensures (total - 0.0) / Max(total, 1.0) == 1.0 && (total - total) / Max(total, 1.0) == 0.0
    ensures total / Max(total, 1.0) == 1.0 && 0.0 / Max(total, 1.0) == 0.0
  {
  }

  /** Whatever is used, a score lies between -0.4 and 1. */
  lemma ScoreRange(w: Worker, req: Request)
    requires w.usedCpu >= 0.0 && w.usedRam >= 0 && w.usedDisk >= 0 && w.count >= 0 && w.failures >= 0
    ensures -0.4 <= Score(w, req) <= 1.0
  {
    hide FreeRatio, PlatformWeight;
    FreeRatioRange(w.cpu, w.usedCpu);
    FreeRatioRange(w.ram as real, w.usedRam as real);
    FreeRatioRange(w.disk as real, w.usedDisk as real);
    DivideMonotone(0.0, w.count as real, Max(w.limit as real, 1.0));
    WeightRange(w, req.platform);
  }

  lemma FreeRatioRange(total: real, used: real)
    requires used >= 0.0
    ensures 0.0 <= FreeRatio(total, used) <= 1.0
  {
    DivideMonotone(total - used, Max(total, 1.0), Max(total, 1.0));
  }

  lemma WeightRange(w: Worker, platform: string)
    ensures PlatformWeight(w, platform).Some? ==> 0.0 <= PlatformWeight(w, platform).value <= 1.0
  {
  }

  /** Of two workers alike but for their platforms, the one that runs a named platform natively scores
      0.045 more than the one that emulates it. */
  lemma NativeScoresMore(w: Worker, v: Worker, req: Request)
    requires Trim(req.platform) != "" && Trim(req.platform) != "multi" && v == w.(platforms := v.platforms)
    requires Trim(req.platform) in w.platforms
    requires Trim(req.platform) !in v.platforms && Trim(req.platform) + "-emulated" in v.platforms
    ensures Score(w, req) == Score(v, req) + 0.045
  {
    hide FreeRatio, Trim;
  }

  /** An image is unsupported exactly where its named platform is offered neither natively nor emulated. */
  lemma UnsupportedExactly(w: Worker, req: Request)
    ensures Unsupported(req.platform) in Rejections(w, req)
            <==> && Trim(req.platform) != "" && Trim(req.platform) != "multi"
                 && Trim(req.platform) !in w.platforms && Trim(req.platform) + "-emulated" !in w.platforms
  {
    RejectionsApply(w, req, Unsupported(req.platform));
    hide Rejections, Trim;
  }

  /** The same worker with at least as much load, ports taken and failures. */
  ghost predicate MoreLoaded(w: Worker, v: Worker) {
    && v == w.(usedCpu := v.usedCpu, usedRam := v.usedRam, usedDisk := v.usedDisk, count := v.count,
               usedPorts := v.usedPorts, failures := v.failures)
    && v.usedCpu >= w.usedCpu && v.usedRam >= w.usedRam && v.usedDisk >= w.usedDisk && v.count >= w.count
    && v.usedPorts >= w.usedPorts && v.failures >= w.failures
  }

  lemma DivideMonotone(a: real, b: real, d: real)
    requires a <= b && d > 0.0
    ensures a / d <= b / d
  {
  }

  lemma FreeRatioMonotone(total: real, u: real, v: real)
    requires u <= v
    ensures FreeRatio(total, v) <= FreeRatio(total, u)
  {
    DivideMonotone(total - v, total - u, Max(total, 1.0));
  }

  /** Load never removes a rejection and never raises a score. */
  lemma LoadMonotone(w: Worker, v: Worker, req: Request)
    requires MoreLoaded(w, v)
    ensures forall r: Reason :: Applies(r, w, req) ==> Applies(r, v, req)
    ensures Score(v, req) <= Score(w, req)
  {
    LoadScore(w, v, req);
    SamePlatforms(w, v, req.platform);
    hide PlatformWeight;
  }

  lemma SamePlatforms(w: Worker, v: Worker, platform: string)
    requires w.platforms == v.platforms
    ensures PlatformWeight(w, platform) == PlatformWeight(v, platform)
  {
    hide Trim;
  }

  lemma LoadScore(w: Worker, v: Worker, req: Request)
    requires MoreLoaded(w, v)
    ensures Score(v, req) <= Score(w, req)
  {
    hide FreeRatio, PlatformWeight;
    SamePlatforms(w, v, req.platform);
    FreeRatioMonotone(w.cpu, w.usedCpu, v.usedCpu);
    FreeRatioMonotone(w.ram as real, w.usedRam as real, v.usedRam as real);
    FreeRatioMonotone(w.disk as real, w.usedDisk as real, v.usedDisk as real);
    DivideMonotone(w.count as real, v.count as real, Max(w.limit as real, 1.0));
  }

  // ---- selection ----

  datatype Candidate = Candidate(score: real, worker: Worker)

  /** Stable sort, highest score first, as the library's sort does it. */
  function Insert(c: Candidate, cs: seq<Candidate>): (r: seq<Candidate>)
    ensures multiset(r) == multiset{c} + multiset(cs)
    ensures |r| == |cs| + 1
  {
    if cs == [] || c.score >= cs[0].score then
      [c] + cs
    else
      assert cs == [cs[0]] + cs[1..];
      [cs[0]] + Insert(c, cs[1..])
  }

  function SortDescending(cs: seq<Candidate>): (r: seq<Candidate>)
    ensures multiset(r) == multiset(cs)
    ensures |r| == |cs|
  {
    if cs == [] then []
    else
      assert cs == [cs[0]] + cs[1..];
      Insert(cs[0], SortDescending(cs[1..]))
  }

  ghost predicate Descending(cs: seq<Candidate>) {
    forall i, j :: 0 <= i < j < |cs| ==> cs[i].score >= cs[j].score
  }

  lemma {:induction false} InsertKeepsOrder(c: Candidate, cs: seq<Candidate>)
    requires Descending(cs)
    ensures Descending(Insert(c, cs))
    ensures Insert(c, cs)[0] == if cs == [] || c.score >= cs[0].score then c else cs[0]
  {
    if cs != [] && c.score < cs[0].score {
      InsertKeepsOrder(c, cs[1..]);
    }
  }

  lemma {:induction false} SortedDescending(cs: seq<Candidate>)
    ensures Descending(SortDescending(cs))
  {
    if cs != [] {
      SortedDescending(cs[1..]);
      InsertKeepsOrder(cs[0], SortDescending(cs[1..]));
    }
  }

  /** Candidate i has the highest score, and no earlier one ties with it. */
  ghost predicate FirstBest(cs: seq<Candidate>, i: nat) {
    && i < |cs|
    && (forall j :: 0 <= j < |cs| ==> cs[j].score <= cs[i].score)
    && (forall j :: 0 <= j < i ==> cs[j].score < cs[i].score)
  }

  /** The head of the stable descending sort is the first candidate of maximal score. */
  lemma {:induction false} SortHead(cs: seq<Candidate>) returns (i: nat)
    requires cs != []
    ensures FirstBest(cs, i) && SortDescending(cs)[0] == cs[i]
  {
    hide Insert;
    SortedDescending(cs[1..]);
    InsertKeepsOrder(cs[0], SortDescending(cs[1..]));
    i := 0;
    if |cs| > 1 {
      var k := SortHead(cs[1..]);
      i := if cs[0].score >= cs[1..][k].score then 0 else k + 1;
    }
  }

  function Candidates(ws: seq<Worker>, req: Request): (cs: seq<Candidate>)
    ensures forall c :: c in cs ==> Eligible(c.worker, req)
  {
    if ws == [] then []
    else
      var last := ws[|ws| - 1];
      Candidates(ws[..|ws| - 1], req) + (if Eligible(last, req) then [Candidate(Score(last, req), last)] else [])
  }

  /** The nearest whole number, a tie going to the even neighbour. */
  function Nearest(x: real): int {
    var rest := x - x.Floor as real;
    if rest < 0.5 || (rest == 0.5 && x.Floor % 2 == 0) then x.Floor else x.Floor + 1
  }

  function Round4(x: real): real {
    Nearest(x * 10000.0) as real / 10000.0
  }

  /** Rounding keeps the order of scores. */
  lemma RoundingKeepsOrder(x: real, y: real)
    requires x <= y
    ensures Round4(x) <= Round4(y)
  {
    NearestKeepsOrder(x * 10000.0, y * 10000.0);
    hide Nearest;
  }

  lemma NearestKeepsOrder(x: real, y: real)
    requires x <= y
    ensures Nearest(x) <= Nearest(y)
  {
    if x.Floor < y.Floor {
    } else {
      assert x.Floor == y.Floor;
    }
  }

  /** Rounding moves a score by at most half of the fourth decimal. */
  lemma RoundingIsNear(x: real)
    ensures -0.00005 <= Round4(x) - x <= 0.00005
  {
    NearestIsNear(x * 10000.0);
    hide Nearest;
  }

  lemma NearestIsNear(x: real)
    ensures -0.5 <= Nearest(x) as real - x <= 0.5
  {
  }

  /** A score halfway between two values of four digits goes to the one whose last digit is even. */
  lemma TiesGoToEven(k: int)
    ensures var even := if k % 2 == 0 then k else k + 1;
            Round4((k as real + 0.5) / 10000.0) == even as real / 10000.0
  {
    var x := k as real + 0.5;
    assert x / 10000.0 * 10000.0 == x;
    assert x.Floor == k;
  }

  function Select(ws: seq<Worker>, req: Request): Option<Placement> {
    var sorted := SortDescending(Candidates(ws, req));
    if sorted == [] then None
    else
      assert sorted[0] in multiset(sorted);
      var best := sorted[0].worker;
      Some(Placement(best.id, best.ip, best.AvailablePorts()[0], Round4(sorted[0].score)))
  }

  /** Worker i is eligible, no eligible worker scores higher, and no earlier eligible one as high. */
  ghost predicate FirstBestWorker(ws: seq<Worker>, req: Request, i: nat) {
    && i < |ws| && Eligible(ws[i], req)
    && (forall j :: 0 <= j < |ws| && Eligible(ws[j], req) ==> Score(ws[j], req) <= Score(ws[i], req))
    && (forall j :: 0 <= j < i && Eligible(ws[j], req) ==> Score(ws[j], req) < Score(ws[i], req))
  }

  /** Every candidate stands for one worker, in the workers' order. */
  lemma {:induction false} CandidatesInOrder(ws: seq<Worker>, req: Request) returns (at: seq<nat>)
    ensures |at| == |Candidates(ws, req)|
    ensures forall k :: 0 <= k < |at| ==> at[k] < |ws| && Candidates(ws, req)[k] == Candidate(Score(ws[at[k]], req), ws[at[k]])
    ensures forall k, l :: 0 <= k < l < |at| ==> at[k] < at[l]
    ensures forall i :: 0 <= i < |ws| && Eligible(ws[i], req) ==> i in at
  {
    hide Eligible, Score;
    at := [];
    if ws != [] {
      var n := |ws| - 1;
      at := CandidatesInOrder(ws[..n], req);
      if Eligible(ws[n], req) {
        at := at + [n];
      }
    }
  }

  /** The choice falls on the first best eligible worker and its smallest free port; it fails when all
      are rejected. */
  lemma SelectsFirstBest(ws: seq<Worker>, req: Request) returns (i: nat)
    ensures Select(ws, req).None? <==> forall w :: w in ws ==> Rejections(w, req) != []
    ensures Select(ws, req).Some? ==>
              var p := Select(ws, req).value;
              && FirstBestWorker(ws, req, i)
              && p.workerId == ws[i].id && p.ip == ws[i].ip && p.score == Round4(Score(ws[i], req))
              && ws[i].portLo <= p.port <= ws[i].portHi && p.port !in ws[i].usedPorts
              && forall q :: ws[i].portLo <= q < p.port ==> q in ws[i].usedPorts
  {
    hide Score, SortDescending, Rejections, Candidates, Round4;
    var cs := Candidates(ws, req);
    var at := CandidatesInOrder(ws, req);
    i := 0;
    if cs != [] {
      var k := SortHead(cs);
      i := at[k];
      BestCandidate(ws, req, at, k);
      SmallestPort(ws[i]);
      EligibleUnrejected(ws[i], req);
      hide Eligible;
    } else {
      forall w | w in ws ensures Rejections(w, req) != [] {
        EligibleUnrejected(w, req);
      }
    }
  }

  lemma BestCandidate(ws: seq<Worker>, req: Request, at: seq<nat>, k: nat)
    requires |at| == |Candidates(ws, req)|
    requires forall k :: 0 <= k < |at| ==> at[k] < |ws| && Candidates(ws, req)[k] == Candidate(Score(ws[at[k]], req), ws[at[k]])
    requires forall k, l :: 0 <= k < l < |at| ==> at[k] < at[l]
    requires forall i :: 0 <= i < |ws| && Eligible(ws[i], req) ==> i in at
    requires FirstBest(Candidates(ws, req), k)
    ensures FirstBestWorker(ws, req, at[k])
  {
    hide Score, Candidates, Eligible;
    assert Candidates(ws, req)[k] in Candidates(ws, req);
    forall j | 0 <= j < |ws| && Eligible(ws[j], req)
      ensures Score(ws[j], req) <= Score(ws[at[k]], req) && (j < at[k] ==> Score(ws[j], req) < Score(ws[at[k]], req))
    {
      var l :| 0 <= l < |at| && at[l] == j;
      assert Candidates(ws, req)[l].score <= Candidates(ws, req)[k].score;
    }
  }

  lemma SmallestPort(w: Worker)
    requires w.AvailablePorts() != []
    ensures w.portLo <= w.AvailablePorts()[0] <= w.portHi && w.AvailablePorts()[0] !in w.usedPorts
    ensures forall q :: w.portLo <= q < w.AvailablePorts()[0] ==> q in w.usedPorts
  {
    var ports := w.AvailablePorts();
    assert ports[0] in ports;
  }

  lemma EligibleHasPort(w: Worker, req: Request)
    requires Eligible(w, req)
    ensures w.AvailablePorts() != []
  {
  }

  /** A worker that runs the image natively is chosen over one that would emulate it and differs in
      nothing else but its name and address, whichever comes first. */
  lemma NativeIsChosen(w: Worker, v: Worker, req: Request)
    requires Trim(req.platform) != "" && Trim(req.platform) != "multi" && v == w.(id := v.id, ip := v.ip, platforms := v.platforms)
    requires Trim(req.platform) in w.platforms
    requires Trim(req.platform) !in v.platforms && Trim(req.platform) + "-emulated" in v.platforms
    requires Eligible(w, req)
    ensures Select([w, v], req).Some? && Select([w, v], req).value.workerId == w.id && Select([w, v], req).value.ip == w.ip
    ensures Select([v, w], req) == Select([w, v], req)
  {
    var u := v.(id := w.id, ip := w.ip);
    NativeScoresMore(w, u, req);
    NameAndAddress(v, u, req);
    hide Score, Eligible, Select, Trim;
    FirstOfTwo(w, v, req);
  }

  lemma NameAndAddress(v: Worker, u: Worker, req: Request)
    requires u == v.(id := u.id, ip := u.ip)
    ensures Score(u, req) == Score(v, req) && Eligible(u, req) == Eligible(v, req)
  {
    hide Trim, FreePorts, FreeRatio;
  }

  /** The better of two workers is chosen in either order. */
  lemma FirstOfTwo(w: Worker, v: Worker, req: Request)
    requires Eligible(w, req) && (Eligible(v, req) ==> Score(w, req) > Score(v, req))
    ensures Select([w, v], req).Some? && Select([w, v], req) == Select([v, w], req)
    ensures Select([w, v], req).value.workerId == w.id && Select([w, v], req).value.ip == w.ip
  {
    hide Score, Eligible, Rejections, Select, Round4;
    var i := SelectsFirstBest([w, v], req);
    var j := SelectsFirstBest([v, w], req);
    EligibleUnrejected(w, req);
    assert w in [w, v] && w in [v, w];
    assert [w, v][0] == w && [v, w][1] == w && [w, v][1] == v && [v, w][0] == v;
    assert i == 0 && j == 1;
    var p, q := Select([w, v], req).value.port, Select([v, w], req).value.port;
    assert p == q;
  }

  datatype Rejected = Rejected(worker: string, reasons: seq<Reason>)

  /** The rejected workers with their reasons, in the workers' order: the detail of the error. */
  function RejectedOf(ws: seq<Worker>, req: Request): seq<Rejected> {
    if ws == [] then []
    else
      var last := ws[|ws| - 1];
      RejectedOf(ws[..|ws| - 1], req)
      + (if Rejections(last, req) == [] then [] else [Rejected(last.id, Rejections(last, req))])
  }

  /** When no worker is chosen the detail names every worker. */
  lemma {:induction false} AllAreNamed(ws: seq<Worker>, req: Request)
    requires forall w :: w in ws ==> Rejections(w, req) != []
    ensures |RejectedOf(ws, req)| == |ws|
    ensures forall i :: 0 <= i < |ws| ==> RejectedOf(ws, req)[i] == Rejected(ws[i].id, Rejections(ws[i], req))
  {
    hide Rejections;
    if ws != [] {
      var n := |ws| - 1;
      AllAreNamed(ws[..n], req);
    }
  }

  method SelectWorker(ws: seq<Worker>, req: Request) returns (r: Option<Placement>, rejected: seq<Rejected>)
    ensures r == Select(ws, req)
    ensures rejected == RejectedOf(ws, req)
  {
    hide Eligible, Score, Rejections, SortDescending, Round4;
    var candidates: seq<Candidate> := [];
    rejected := [];
    for i := 0 to |ws|
      invariant candidates == Candidates(ws[..i], req)
      invariant rejected == RejectedOf(ws[..i], req)
    {
      assert ws[..i + 1][..i] == ws[..i];
      EligibleUnrejected(ws[i], req);
      var reasons := HardRejections(ws[i], req);
      if reasons != [] {
        rejected := rejected + [Rejected(ws[i].id, reasons)];
        continue;
      }
      candidates := candidates + [Candidate(Score(ws[i], req), ws[i])];
    }
    assert ws[..|ws|] == ws;
    if candidates == [] {
      return None, rejected;
    }
    candidates := SortDescending(candidates);
    assert candidates[0] in multiset(candidates);
    var chosen := candidates[0].worker;
    assert Eligible(chosen, req);
    assert chosen.AvailablePorts() != [] by { EligibleHasPort(chosen, req); }
    r := Some(Placement(chosen.id, chosen.ip, chosen.AvailablePorts()[0], Round4(candidates[0].score)));
  }
}
