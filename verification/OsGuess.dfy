/** Scoring a TCP fingerprint and what the scores amount to. */
module OsGuess {
  import opened Prelude
  import opened TcpOptions

  datatype Score = Score(name: string, points: nat)

  /** Place a score in front of those it is not below, so that equal scores keep their order. */
  function Insert(x: Score, sorted: seq<Score>): seq<Score>
  {
    if sorted == [] || x.points >= sorted[0].points then [x] + sorted else [sorted[0]] + Insert(x, sorted[1..])
  }

  /** The stable sort by descending points. */
  function StableSort(scores: seq<Score>): seq<Score>
  {
    if scores == [] then [] else Insert(scores[0], StableSort(scores[1..]))
  }

  /** The leader after one more score has been pushed: only a strictly higher one takes over. */
  function Lead(leader: Option<Score>, x: Score): Option<Score>
  {
    if leader.Some? && leader.value.points >= x.points then leader else Some(x)
  }

  function Leader(scores: seq<Score>): Option<Score>
  {
    if scores == [] then None else Lead(Leader(scores[..|scores| - 1]), scores[|scores| - 1])
  }

  ghost predicate Descending(scores: seq<Score>)
  {
    forall i, j :: 0 <= i < j < |scores| ==> scores[i].points >= scores[j].points
  }

  lemma {:induction false} InsertMembers(x: Score, sorted: seq<Score>)
    ensures multiset(Insert(x, sorted)) == multiset{x} + multiset(sorted)
  {
    if sorted != [] && x.points < sorted[0].points {
      InsertMembers(x, sorted[1..]);
      assert sorted == [sorted[0]] + sorted[1..];
    }
  }

  lemma {:induction false} InsertKeeps(x: Score, sorted: seq<Score>)
    requires Descending(sorted)
    ensures Descending(Insert(x, sorted))
  {
    if sorted != [] && x.points < sorted[0].points {
      InsertKeeps(x, sorted[1..]);
      InsertMembers(x, sorted[1..]);
      DescendingCons(x, sorted[0], sorted[1..], Insert(x, sorted[1..]));
      assert sorted == [sorted[0]] + sorted[1..];
    }
  }

  lemma DescendingCons(x: Score, head: Score, tail: seq<Score>, rest: seq<Score>)
    requires Descending([head] + tail) && x.points <= head.points
    requires Descending(rest) && multiset(rest) == multiset{x} + multiset(tail)
    ensures Descending([head] + rest)
  {
    forall i | 0 <= i < |rest|
      ensures head.points >= rest[i].points
    {
      assert rest[i] in multiset(rest);
      if rest[i] != x {
        assert rest[i] in multiset(tail);
        var j :| 0 <= j < |tail| && tail[j] == rest[i];
        assert ([head] + tail)[0] == head && ([head] + tail)[j + 1] == tail[j];
      }
    }
  }

  /** The sort yields the same scores in descending order. */
  lemma {:induction false} StableSortSorts(scores: seq<Score>)
    ensures Descending(StableSort(scores)) && multiset(StableSort(scores)) == multiset(scores)
  {
    if scores != [] {
      StableSortSorts(scores[1..]);
      InsertKeeps(scores[0], StableSort(scores[1..]));
      InsertMembers(scores[0], StableSort(scores[1..]));
      assert scores == [scores[0]] + scores[1..];
    }
  }

  lemma {:induction false} LeaderFromFront(x: Score, rest: seq<Score>)
    ensures Leader([x] + rest)
         == if Leader(rest).Some? && Leader(rest).value.points > x.points then Leader(rest) else Some(x)
    decreases |rest|
  {
    if rest == [] {
      assert ([x] + rest)[..0] == [];
    } else {
      assert ([x] + rest)[..|rest|] == [x] + rest[..|rest| - 1];
      LeaderFromFront(x, rest[..|rest| - 1]);
    }
  }

  /** Taking the first of the stable sort is taking the first of the highest scores in pushing order. */
  lemma {:induction false} FirstIsLeader(scores: seq<Score>)
    ensures Leader(scores) == if scores == [] then None else Some(StableSort(scores)[0])
    ensures scores != [] ==> StableSort(scores) != []
  {
    if scores != [] {
      FirstIsLeader(scores[1..]);
      LeaderFromFront(scores[0], scores[1..]);
      assert scores == [scores[0]] + scores[1..];
    }
  }

  method Push(scores: seq<Score>, condition: bool, name: string, points: nat) returns (after: seq<Score>)
    ensures after == if condition then scores + [Score(name, points)] else scores
    ensures Leader(after) == if condition then Lead(Leader(scores), Score(name, points)) else Leader(scores)
  {
    after := scores;
    if condition {
      after := after + [Score(name, points)];
      assert after[..|scores|] == scores;
    }
  }

  /** The verdict as a plain decision list. */
  function Verdict(fp: StackFingerprint): Option<string>
  {
    var wide := fp.window == 65535;
    var modern := Timestamp in fp.options && SackPermitted in fp.options;
    if fp.ttl == 64 && wide && modern then Some("macOS 10.15+")
    else if fp.ttl <= 64 && wide && fp.mss == Some(1460) && fp.scale.Some? then Some("Linux (kernel 4.x+)")
    else if fp.ttl == 64 && wide && fp.mss == Some(1460) then Some("macOS 10.15+")
    else if fp.ttl <= 64 && fp.window == 29200 && fp.mss == Some(1460) then Some("Linux (kernel 3.x)")
    else if fp.ttl <= 64 then Some("Linux")
    else if fp.ttl == 128 && wide && fp.scale == Some(8) then Some("Windows 10/11")
    else if fp.ttl == 128 && fp.window == 8192 then Some("Windows 7/2008")
    else if fp.ttl == 128 then Some("Windows")
    else if fp.ttl == 255 && fp.window == 16384 then Some("OpenBSD")
    else if fp.ttl == 255 && wide then Some("FreeBSD")
    else if fp.ttl == 255 then Some("BSD/Solaris/Network Device")
    else None
  }

  /** The scores of low initial TTLs; the highest of them is never below three points. */
  method ScoreLowTtl(fp: StackFingerprint) returns (scores: seq<Score>)
    ensures fp.ttl > 64 ==> Leader(scores) == None
    ensures fp.ttl <= 64 ==>
              Leader(scores).Some? && Leader(scores).value.points >= 3 && Some(Leader(scores).value.name) == Verdict(fp)
  {
    hide Leader;
    var hasTimestamp := Timestamp in fp.options;
    var hasSack := SackPermitted in fp.options;
    scores := [];
    NoLeader();
    scores := Push(scores, fp.ttl <= 64, "Linux", 3);
    scores := Push(scores, fp.ttl <= 64 && fp.window == 65535 && fp.mss == Some(1460) && fp.scale.Some?,
                   "Linux (kernel 4.x+)", 8);
    scores := Push(scores, fp.ttl <= 64 && fp.window == 29200 && fp.mss == Some(1460), "Linux (kernel 3.x)", 6);
    scores := Push(scores, fp.ttl == 64 && fp.window == 65535 && hasTimestamp && hasSack, "macOS 10.15+", 9);
    scores := Push(scores, fp.ttl == 64 && fp.window == 65535 && fp.mss == Some(1460), "macOS 10.15+", 7);
    scores := Push(scores, fp.ttl == 64, "macOS/Linux", 3);
  }

  /** Push every matching score, sort by descending points, answer the first. */
  method GuessOs(fp: StackFingerprint) returns (name: Option<string>)
    ensures name == Verdict(fp)
  {
    hide Leader, StableSort;
    var hasTimestamp := Timestamp in fp.options;
    var hasSack := SackPermitted in fp.options;
    var scores := ScoreLowTtl(fp);
    scores := Push(scores, fp.ttl == 128, "Windows", 3);
    scores := Push(scores, fp.ttl == 128 && fp.window == 8192, "Windows 7/2008", 7);
    scores := Push(scores, fp.ttl == 128 && fp.window == 65535 && fp.scale == Some(8), "Windows 10/11", 8);
    scores := Push(scores, fp.ttl == 128 && fp.window == 65535 && hasTimestamp && hasSack && fp.scale == Some(8),
                   "Windows 10/11", 9);
    scores := Push(scores, fp.ttl == 255, "BSD/Solaris/Network Device", 4);
    scores := Push(scores, fp.ttl == 255 && fp.window == 16384, "OpenBSD", 7);
    scores := Push(scores, fp.ttl == 255 && fp.window == 65535, "FreeBSD", 6);
    scores := Push(scores, fp.ttl <= 32, "Embedded/IoT", 3);
    FirstIsLeader(scores);
    name := if scores == [] then None else Some(StableSort(scores)[0].name);
  }

  lemma NoLeader()
    ensures Leader([]) == None
  {
  }

  /** Two of the names that are scored can never be the answer, and an answer needs a usual initial TTL. */
  lemma UnreachableVerdicts(fp: StackFingerprint)
    ensures Verdict(fp) != Some("macOS/Linux") && Verdict(fp) != Some("Embedded/IoT")
    ensures Verdict(fp).None? <==> fp.ttl > 64 && fp.ttl != 128 && fp.ttl != 255
  {
  }

  /** The fingerprint advertises both the timestamp and the selective-acknowledgement option. */
  predicate Modern(fp: StackFingerprint)
  {
    Timestamp in fp.options && SackPermitted in fp.options
  }

  /** For every answer, exactly the fingerprints that get it. */
  lemma VerdictExactly(fp: StackFingerprint)
    ensures Verdict(fp) == Some("macOS 10.15+") <==>
              fp.ttl == 64 && fp.window == 65535 && (Modern(fp) || (fp.mss == Some(1460) && fp.scale.None?))
    ensures Verdict(fp) == Some("Linux (kernel 4.x+)") <==>
              fp.ttl <= 64 && fp.window == 65535 && fp.mss == Some(1460) && fp.scale.Some?
              && !(fp.ttl == 64 && Modern(fp))
    ensures Verdict(fp) == Some("Linux (kernel 3.x)") <==>
              fp.ttl <= 64 && fp.window == 29200 && fp.mss == Some(1460)
    ensures Verdict(fp) == Some("Linux") <==>
              && fp.ttl <= 64 && !(fp.mss == Some(1460) && fp.window == 29200)
              && !(fp.window == 65535 && ((fp.mss == Some(1460) && (fp.scale.Some? || fp.ttl == 64))
                                          || (fp.ttl == 64 && Modern(fp))))
    ensures Verdict(fp) == Some("Windows 10/11") <==> fp.ttl == 128 && fp.window == 65535 && fp.scale == Some(8)
    ensures Verdict(fp) == Some("Windows 7/2008") <==> fp.ttl == 128 && fp.window == 8192
    ensures Verdict(fp) == Some("Windows") <==>
              fp.ttl == 128 && fp.window != 8192 && !(fp.window == 65535 && fp.scale == Some(8))
    ensures Verdict(fp) == Some("OpenBSD") <==> fp.ttl == 255 && fp.window == 16384
    ensures Verdict(fp) == Some("FreeBSD") <==> fp.ttl == 255 && fp.window == 65535
    ensures Verdict(fp) == Some("BSD/Solaris/Network Device") <==>
              fp.ttl == 255 && fp.window != 16384 && fp.window != 65535
  {
    DifferentNames();
  }

  lemma DifferentNames()
    ensures "macOS 10.15+"[0] == 'm' && "Linux"[0] == 'L' && "Windows"[0] == 'W' && "OpenBSD"[0] == 'O'
    ensures "FreeBSD"[0] == 'F' && "BSD/Solaris/Network Device"[0] == 'B'
    ensures "Linux (kernel 4.x+)"[14] == '4' && "Linux (kernel 3.x)"[14] == '3'
    ensures |"Windows"| == 7 && |"Windows 10/11"| == 13 && "Windows 10/11"[8] == '1' && "Windows 7/2008"[8] == '7'
  {
  }
}
