/** One poll cycle of the mover (move_nas_videos.py): every regular file in the NAS
    directory whose lower-cased name ends in ".mov" and whose name is not yet taken
    in the local directory is moved there, with a copy-then-remove fallback when the
    move fails with EXDEV.  The two directories are maps from entry name to entry;
    what the file-system calls do is an input, one `Attempt` per listed entry. */
module NasMover {
  import opened Strings

  datatype Kind = RegularFile | Directory | OtherKind

  /** A directory entry: what `os.scandir` reports about it, and its bytes. */
  datatype Entry = Entry(kind: Kind, data: seq<bv8>)

  /** How `shutil.move` ends: it moves the file, fails with EXDEV, or raises another
      `OSError`. */
  datatype MoveResult = Renamed | CrossDevice | OtherError

  /** What the file system does when one entry is moved: the result of
      `shutil.move`, and whether `shutil.copy2` and `os.remove` succeed if the
      fallback runs. */
  datatype Attempt = Attempt(move: MoveResult, copySucceeds: bool, removeSucceeds: bool)

  /** Which call raised out of `cross_device_move`. */
  datatype MoveError = MoveFailed | CopyFailed | RemoveFailed

  datatype Outcome = Done | Raised(error: MoveError)

  /** The NAS directory and the local directory. */
  datatype Dirs = Dirs(nas: map<string, Entry>, local: map<string, Entry>)

  const MovSuffix: string := ".mov"

  /** `entry.is_file() and entry.name.lower().endswith('.mov')`.  Hidden names are
      not excluded. */
  predicate IsCandidate(name: string, e: Entry)
  {
    e.kind == RegularFile && EndsWith(Lower(name), MovSuffix)
  }

  /** The attempt lets `cross_device_move` return normally. */
  predicate Succeeds(a: Attempt)
  {
    a.move == Renamed || (a.move == CrossDevice && a.copySucceeds && a.removeSucceeds)
  }

  /** The specification of `cross_device_move` for the entry `name`: the new
      directories and how the call ended. */
  function Transfer(d: Dirs, name: string, a: Attempt): (r: (Dirs, Outcome))
    requires name in d.nas
    ensures r.1 == Done <==> Succeeds(a)
    ensures r.0.nas == (if r.1 == Done then d.nas - {name} else d.nas)
    ensures r.0.local ==
      (if r.1 == Done || r.1 == Raised(RemoveFailed) then d.local[name := d.nas[name]] else d.local)
    ensures r.1 == Raised(MoveFailed) <==> a.move == OtherError
  {
    var e := d.nas[name];
    match a.move
    case Renamed => (Dirs(d.nas - {name}, d.local[name := e]), Done)
    case OtherError => (d, Raised(MoveFailed))
    case CrossDevice =>
      if !a.copySucceeds then (d, Raised(CopyFailed))
      else if !a.removeSucceeds then (Dirs(d.nas, d.local[name := e]), Raised(RemoveFailed))
      else (Dirs(d.nas - {name}, d.local[name := e]), Done)
  }

  /** The loop body of `move_new_videos` for the entry `name`. */
  function Step(d: Dirs, name: string, a: Attempt): Dirs
  {
    if name in d.nas && IsCandidate(name, d.nas[name]) && name !in d.local
    then Transfer(d, name, a).0
    else d
  }

  /** The specification of `move_new_videos`: the loop body for each listed entry in
      turn, whatever the earlier entries' outcomes were. */
  function Cycle(d: Dirs, listing: seq<string>, attempts: seq<Attempt>): Dirs
    requires |attempts| == |listing|
    decreases |listing|
  {
    if |listing| == 0 then d
    else
      var n := |listing| - 1;
      Step(Cycle(d, listing[..n], attempts[..n]), listing[n], attempts[n])
  }

  predicate Distinct(listing: seq<string>)
  {
    forall i, j :: 0 <= i < j < |listing| ==> listing[i] != listing[j]
  }

  /** `d1` and `d2` agree on the entry `m`, in both directories. */
  predicate SameAt(d1: Dirs, d2: Dirs, m: string)
  {
    (m in d1.nas <==> m in d2.nas) && (m in d1.nas ==> d1.nas[m] == d2.nas[m]) &&
    (m in d1.local <==> m in d2.local) && (m in d1.local ==> d1.local[m] == d2.local[m])
  }

  /** The mover's view of the two directories, updated in place by its methods. */
  class Mover {
    var nas: map<string, Entry>
    var local: map<string, Entry>

    constructor (nas: map<string, Entry>, local: map<string, Entry>)
      ensures this.nas == nas && this.local == local
    {
      this.nas := nas;
      this.local := local;
    }

    function State(): Dirs
      reads this
    {
      Dirs(nas, local)
    }

    /** `cross_device_move(source, dest)` for the NAS entry `name`. */
    method CrossDeviceMove(name: string, attempt: Attempt) returns (outcome: Outcome)
      requires name in nas
      modifies this
      ensures (State(), outcome) == Transfer(old(State()), name, attempt)
      ensures outcome == Done <==> Succeeds(attempt)
      ensures outcome == Done ==>
        nas == old(nas) - {name} && local == old(local)[name := old(nas)[name]]
      ensures outcome == Raised(MoveFailed) || outcome == Raised(CopyFailed) ==>
        nas == old(nas) && local == old(local)
      ensures outcome == Raised(RemoveFailed) ==>
        nas == old(nas) && local == old(local)[name := old(nas)[name]]
    {
      var entry := nas[name];
      match attempt.move {
        case Renamed =>
          local := local[name := entry];
          nas := nas - {name};
          outcome := Done;
        case OtherError =>
          outcome := Raised(MoveFailed);
        case CrossDevice =>
          if !attempt.copySucceeds {
            return Raised(CopyFailed);
          }
          local := local[name := entry];
          if !attempt.removeSucceeds {
            return Raised(RemoveFailed);
          }
          nas := nas - {name};
          outcome := Done;
      }
    }

    /** `move_new_videos`: `listing` is the order in which `os.scandir` yields the NAS
        entries, `attempts[i]` what happens when `listing[i]` is moved. */
    method MoveNewVideos(listing: seq<string>, attempts: seq<Attempt>)
      requires |attempts| == |listing|
      requires Distinct(listing)
      requires forall n :: n in nas <==> n in listing
      modifies this
      ensures State() == Cycle(old(State()), listing, attempts)
    {
      var scanned := nas;
      var i := 0;
      while i < |listing|
        invariant 0 <= i <= |listing|
        invariant State() == Cycle(old(State()), listing[..i], attempts[..i])
        invariant forall j :: i <= j < |listing| ==>
          listing[j] in nas && nas[listing[j]] == scanned[listing[j]]
      {
        var name := listing[i];
        assert listing[..i + 1][..i] == listing[..i];
        assert attempts[..i + 1][..i] == attempts[..i];
        var entry := scanned[name];
        if entry.kind == RegularFile && EndsWith(Lower(name), MovSuffix) {
          if name !in local {
            // an error raised here is logged and the loop goes on
            var outcome := CrossDeviceMove(name, attempts[i]);
          }
        }
        i := i + 1;
      }
      assert listing[..i] == listing && attempts[..i] == attempts;
    }
  }

  /** The fallback's end state is that of a plain move. */
  lemma FallbackEqualsMove(d: Dirs, name: string, copyOk: bool, removeOk: bool)
    requires name in d.nas
    ensures Transfer(d, name, Attempt(CrossDevice, true, true)) ==
            Transfer(d, name, Attempt(Renamed, copyOk, removeOk))
  {
  }

  /** An error other than EXDEV is raised again, and nothing is copied or removed. */
  lemma OtherErrorReraised(d: Dirs, name: string, copyOk: bool, removeOk: bool)
    requires name in d.nas
    ensures Transfer(d, name, Attempt(OtherError, copyOk, removeOk)) == (d, Raised(MoveFailed))
  {
  }

  /** The loop body for one entry touches no other entry. */
  lemma StepFrame(d: Dirs, n: string, a: Attempt, m: string)
    requires m != n
    ensures SameAt(Step(d, n, a), d, m)
  {
  }

  /** What the loop body does to its entry depends only on that entry. */
  lemma StepLocal(d1: Dirs, d2: Dirs, n: string, a: Attempt)
    requires SameAt(d1, d2, n)
    ensures SameAt(Step(d1, n, a), Step(d2, n, a), n)
  {
  }

  /** A name the listing does not hold comes out of the cycle as it went in. */
  lemma {:induction false} CycleOutside(d: Dirs, listing: seq<string>, attempts: seq<Attempt>, m: string)
    requires |attempts| == |listing|
    requires m !in listing
    ensures SameAt(Cycle(d, listing, attempts), d, m)
    decreases |listing|
  {
    if |listing| > 0 {
      var n := |listing| - 1;
      assert listing[n] in listing;
      assert m !in listing[..n] by {
        forall k | 0 <= k < n ensures listing[..n][k] != m {
          assert listing[..n][k] == listing[k];
        }
      }
      CycleOutside(d, listing[..n], attempts[..n], m);
      StepFrame(Cycle(d, listing[..n], attempts[..n]), listing[n], attempts[n], m);
    }
  }

  /** In one cycle, each listed entry ends as the loop body alone would leave it: no
      other entry, and no other entry's error, affects it. */
  lemma {:induction false} CycleAt(d: Dirs, listing: seq<string>, attempts: seq<Attempt>, i: nat)
    requires |attempts| == |listing| && Distinct(listing)
    requires i < |listing|
    ensures SameAt(Cycle(d, listing, attempts), Step(d, listing[i], attempts[i]), listing[i])
    decreases |listing|
  {
    var n := |listing| - 1;
    var prefix, prior := listing[..n], attempts[..n];
    var before := Cycle(d, prefix, prior);
    if i == n {
      assert listing[n] !in prefix by {
        forall k | 0 <= k < n ensures prefix[k] != listing[n] {
          assert prefix[k] == listing[k];
        }
      }
      CycleOutside(d, prefix, prior, listing[n]);
      StepLocal(before, d, listing[n], attempts[n]);
    } else {
      assert Distinct(prefix) by {
        forall a, b | 0 <= a < b < |prefix| ensures prefix[a] != prefix[b] {
          assert prefix[a] == listing[a] && prefix[b] == listing[b];
        }
      }
      assert prefix[i] == listing[i] && prior[i] == attempts[i];
      CycleAt(d, prefix, prior, i);
      StepFrame(before, listing[n], attempts[n], listing[i]);
    }
  }

  /** A new candidate whose move succeeds is in the local directory, with its content,
      and gone from the NAS after the cycle. */
  lemma CycleMovesNewCandidate(d: Dirs, listing: seq<string>, attempts: seq<Attempt>, i: nat)
    requires |attempts| == |listing| && Distinct(listing)
    requires i < |listing|
    requires listing[i] in d.nas && IsCandidate(listing[i], d.nas[listing[i]])
    requires listing[i] !in d.local
    requires Succeeds(attempts[i])
    ensures var after := Cycle(d, listing, attempts);
      listing[i] !in after.nas && listing[i] in after.local &&
      after.local[listing[i]] == d.nas[listing[i]]
  {
    CycleAt(d, listing, attempts, i);
  }

  /** A new candidate whose move raises stays in the NAS unchanged; the local
      directory holds it only when the copy of the fallback was made. */
  lemma CycleKeepsFailedCandidate(d: Dirs, listing: seq<string>, attempts: seq<Attempt>, i: nat)
    requires |attempts| == |listing| && Distinct(listing)
    requires i < |listing|
    requires listing[i] in d.nas && IsCandidate(listing[i], d.nas[listing[i]])
    requires listing[i] !in d.local
    requires !Succeeds(attempts[i])
    ensures var after := Cycle(d, listing, attempts);
      listing[i] in after.nas && after.nas[listing[i]] == d.nas[listing[i]] &&
      (listing[i] in after.local <==> attempts[i].move == CrossDevice && attempts[i].copySucceeds) &&
      (listing[i] in after.local ==> after.local[listing[i]] == d.nas[listing[i]])
  {
    CycleAt(d, listing, attempts, i);
  }

  /** Every name that is not a new candidate (not a regular ".mov" file, or already
      taken in the local directory) is left as it was in both directories. */
  lemma CycleLeavesTheRest(d: Dirs, listing: seq<string>, attempts: seq<Attempt>, m: string)
    requires |attempts| == |listing| && Distinct(listing)
    requires !(m in d.nas && IsCandidate(m, d.nas[m]) && m !in d.local)
    ensures SameAt(Cycle(d, listing, attempts), d, m)
  {
    if m in listing {
      var i :| 0 <= i < |listing| && listing[i] == m;
      CycleAt(d, listing, attempts, i);
    } else {
      CycleOutside(d, listing, attempts, m);
    }
  }

  /** The extension test ignores a leading dot: a hidden ".mov" file is moved too. */
  lemma HiddenMovIsCandidate(data: seq<bv8>)
    ensures IsCandidate(".hidden.mov", Entry(RegularFile, data))
  {
    LowerOfLowerCase(".hidden.mov");
  }

  /** The extension test is on the lower-cased name. */
  lemma UpperCaseMovIsCandidate(data: seq<bv8>)
    ensures IsCandidate("CLIP.MOV", Entry(RegularFile, data))
  {
    assert Lower("CLIP.MOV") == "clip.mov";
  }

  /** The extension is fixed: an ".mp4" file is not moved. */
  lemma Mp4IsNotCandidate(data: seq<bv8>)
    ensures !IsCandidate("clip.mp4", Entry(RegularFile, data))
  {
    LowerOfLowerCase("clip.mp4");
  }
}
