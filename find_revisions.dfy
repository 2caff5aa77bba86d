/**
 * The revision finder dialog (`FindRevisionsController` in
 * ugitlibs/utilcontroller.py).  The full log is loaded once as two parallel
 * lists; typing in the revision line looks the text up as a revision-id
 * prefix, shows the first match's summary and diff, or, when nothing
 * matches, shows whatever the repository makes of the text.
 */
module FindRevisions {
  import opened Strings

  /** Keystrokes closer together than this (in milliseconds) are dropped. */
  const DebounceMillis: int := 200

  /** Shorter input is not looked up. */
  const MinQueryLength: nat := 2

  /** The first revision, in list order, that starts with `query`. */
  function FirstMatch(revisions: seq<string>, query: string): (r: Option<nat>)
    ensures r.Some? ==> r.value < |revisions| && query <= revisions[r.value]
    ensures r.Some? ==> forall j :: 0 <= j < r.value ==> !(query <= revisions[j])
    ensures r.None? ==> forall j :: 0 <= j < |revisions| ==> !(query <= revisions[j])
  {
    if revisions == [] then None
    else if query <= revisions[0] then Some(0)
    else match FirstMatch(revisions[1..], query)
      case None => None
      case Some(i) => Some(i + 1)
  }

  /** Everything a handler of this dialog can change, besides the debounce clock. */
  datatype Snapshot = Snapshot(
    sha1: Option<string>,       // the last revision shown (kept when a lookup misses)
    revisionLine: string,       // the text of the revision line
    commitList: seq<string>,    // the summaries listed
    commitText: string,         // the diff or content shown
    lastCopied: Option<string>) // what the dialog last put on the clipboard

  /** Python truthiness of the remembered revision: set, and not the empty string. */
  predicate IsSet(sha1: Option<string>)
  {
    sha1.Some? && sha1.value != []
  }

  /** Showing the revision at `idx`; a no-op when it is already the last one shown. */
  function ShowEffect(revisions: seq<string>, summaries: seq<string>, commitDiff: string -> string,
                      s: Snapshot, idx: nat): (r: Snapshot)
    requires idx < |revisions| == |summaries|
    ensures r.sha1 == Some(revisions[idx]) && r.revisionLine == s.revisionLine
    ensures IsSet(s.sha1) && s.sha1.value == revisions[idx] ==> r == s
    ensures !(IsSet(s.sha1) && s.sha1.value == revisions[idx]) ==>
      r.commitList == [summaries[idx]] && r.commitText == commitDiff(revisions[idx]) &&
      r.lastCopied == Some(revisions[idx])
  {
    var revision := revisions[idx];
    if IsSet(s.sha1) && s.sha1.value == revision then s
    else s.(sha1 := Some(revision), commitList := [summaries[idx]],
            commitText := commitDiff(revision), lastCopied := Some(revision))
  }

  /** Looking up `query` once the keystroke has passed the debounce check. */
  function FindEffect(revisions: seq<string>, summaries: seq<string>, show: string -> string,
                      commitDiff: string -> string, s: Snapshot, query: string): (r: Snapshot)
    requires |revisions| == |summaries|
    ensures r.revisionLine == s.revisionLine
    ensures |query| < MinQueryLength ==> r == s
    ensures r.sha1 != s.sha1 ==> exists i :: 0 <= i < |revisions| && r.sha1 == Some(revisions[i]) && query <= revisions[i]
  {
    if |query| < MinQueryLength then s
    else match FirstMatch(revisions, query)
      case Some(i) => ShowEffect(revisions, summaries, commitDiff, s, i)
      case None => s.(commitList := [], commitText := show(query))
  }

  /** The summary list or text cursor moved: re-announce the last revision shown. */
  function SelectEffect(s: Snapshot, updatesEnabled: bool): (r: Snapshot)
    ensures r.sha1 == s.sha1 && r.commitList == s.commitList && r.commitText == s.commitText
    ensures updatesEnabled && IsSet(s.sha1) ==> r.revisionLine == s.sha1.value && r.lastCopied == s.sha1
    ensures !(updatesEnabled && IsSet(s.sha1)) ==> r == s
  {
    if updatesEnabled && IsSet(s.sha1) then s.(revisionLine := s.sha1.value, lastCopied := s.sha1)
    else s
  }

  /**
   * What a lookup leaves behind: short input changes nothing; a match makes
   * that revision (the first match in list order) the last one shown, and
   * shows it unless it already was the last one shown; no match empties the
   * list and shows the repository's answer, keeping the remembered revision.
   */
  lemma FindOutcome(revisions: seq<string>, summaries: seq<string>, show: string -> string,
                    commitDiff: string -> string, s: Snapshot, query: string)
    requires |revisions| == |summaries|
    ensures var t := FindEffect(revisions, summaries, show, commitDiff, s, query);
      t.revisionLine == s.revisionLine &&
      (|query| < MinQueryLength ==> t == s) &&
      (|query| >= MinQueryLength && (exists j :: 0 <= j < |revisions| && query <= revisions[j]) ==>
        exists i :: 0 <= i < |revisions| && query <= revisions[i] &&
          (forall j :: 0 <= j < i ==> !(query <= revisions[j])) &&
          t.sha1 == Some(revisions[i]) &&
          (t == s || (t.commitList == [summaries[i]] && t.commitText == commitDiff(revisions[i])))) &&
      (|query| >= MinQueryLength && (forall j :: 0 <= j < |revisions| ==> !(query <= revisions[j])) ==>
        t == s.(commitList := [], commitText := show(query)))
  {
    if |query| >= MinQueryLength {
      match FirstMatch(revisions, query)
      case Some(i) =>
        assert query <= revisions[i];
        assert |revisions[i]| >= MinQueryLength;
      case None =>
    }
  }

  /**
   * Looking the same text up twice is the same as looking it up once: the
   * remembered revision stops a match from being shown again.
   */
  lemma FindIdempotent(revisions: seq<string>, summaries: seq<string>, show: string -> string,
                       commitDiff: string -> string, s: Snapshot, query: string)
    requires |revisions| == |summaries|
    ensures var once := FindEffect(revisions, summaries, show, commitDiff, s, query);
      FindEffect(revisions, summaries, show, commitDiff, once, query) == once
  {
    if |query| >= MinQueryLength {
      match FirstMatch(revisions, query)
      case Some(i) =>
        assert query <= revisions[i];
        assert revisions[i] != [];
      case None =>
    }
  }

  /**
   * The remembered revision outlives a miss.  After a lookup `hit` shows
   * its first match and a lookup `miss` finds nothing, looking `hit` up
   * again changes nothing: the list stays empty and the pane keeps the
   * repository's answer to `miss`, although `sha1` names the match.  A
   * cursor move then writes that match into the revision line.
   */
  lemma RematchAfterMissKeepsContent(revisions: seq<string>, summaries: seq<string>,
                                     show: string -> string, commitDiff: string -> string,
                                     s: Snapshot, hit: string, miss: string)
    requires |revisions| == |summaries|
    requires |hit| >= MinQueryLength && FirstMatch(revisions, hit).Some?
    requires |miss| >= MinQueryLength && FirstMatch(revisions, miss).None?
    ensures var s1 := FindEffect(revisions, summaries, show, commitDiff, s, hit);
      var s2 := FindEffect(revisions, summaries, show, commitDiff, s1, miss);
      var s3 := FindEffect(revisions, summaries, show, commitDiff, s2, hit);
      var rev := revisions[FirstMatch(revisions, hit).value];
      s3 == s2 && s3.sha1 == Some(rev) && s3.commitList == [] && s3.commitText == show(miss) &&
      SelectEffect(s3, true).revisionLine == rev
  {
    var i := FirstMatch(revisions, hit).value;
    assert hit <= revisions[i];
    assert |revisions[i]| >= MinQueryLength;
  }

  /**
   * After a revision is shown, moving the cursor puts exactly that revision
   * back into the revision line and onto the clipboard.
   */
  lemma SelectAfterShow(revisions: seq<string>, summaries: seq<string>, commitDiff: string -> string,
                        s: Snapshot, idx: nat)
    requires idx < |revisions| == |summaries| && revisions[idx] != []
    ensures var t := SelectEffect(ShowEffect(revisions, summaries, commitDiff, s, idx), true);
      t.revisionLine == revisions[idx] && t.lastCopied == Some(revisions[idx]) &&
      t.sha1 == Some(revisions[idx])
  {
  }

  class FindRevisionsController {
    const revisions: seq<string>
    const summaries: seq<string>
    /** The repository's `show(revision)`: raw content for any revision expression. */
    const show: string -> string
    /** The repository's `get_commit_diff(revision)`. */
    const commitDiff: string -> string

    var sha1: Option<string>
    var lastTime: int
    var updatesEnabled: bool
    var revisionLine: string
    var commitList: seq<string>
    var commitText: string
    var lastCopied: Option<string>

    /** Between events the two lists line up and updates are enabled. */
    ghost predicate Valid()
      reads this
    {
      |revisions| == |summaries| && updatesEnabled
    }

    function State(): Snapshot
      reads this
    {
      Snapshot(sha1, revisionLine, commitList, commitText, lastCopied)
    }

    /** Opening the dialog at time `now` with the full log `revisions`/`summaries`. */
    constructor (revisions: seq<string>, summaries: seq<string>, show: string -> string,
                 commitDiff: string -> string, now: int)
      requires |revisions| == |summaries|
      ensures Valid()
      ensures this.revisions == revisions && this.summaries == summaries
      ensures this.show == show && this.commitDiff == commitDiff
      ensures State() == Snapshot(None, [], [], [], None) && lastTime == now
    {
      this.revisions := revisions;
      this.summaries := summaries;
      this.show := show;
      this.commitDiff := commitDiff;
      sha1 := None;
      lastTime := now;
      updatesEnabled := true;
      revisionLine := [];
      commitList := [];
      commitText := [];
      lastCopied := None;
    }

    /** A keystroke at time `now` (milliseconds) leaves `text` in the revision line. */
    method FindRevision(text: string, now: int)
      requires Valid()
      modifies this
      ensures Valid() && revisionLine == text
      ensures now - old(lastTime) < DebounceMillis ==>
        lastTime == now && State() == old(State()).(revisionLine := text)
      ensures now - old(lastTime) >= DebounceMillis ==>
        lastTime == old(lastTime) &&
        State() == FindEffect(revisions, summaries, show, commitDiff, old(State()).(revisionLine := text), text)
    {
      revisionLine := text;
      if now - lastTime < DebounceMillis {
        lastTime := now;
        return;
      }
      var revision := revisionLine;
      if |revision| < MinQueryLength {
        return;
      }
      var idx := 0;
      while idx < |revisions| && !(revision <= revisions[idx])
        invariant idx <= |revisions|
        invariant forall j :: 0 <= j < idx ==> !(revision <= revisions[j])
      {
        idx := idx + 1;
      }
      if idx < |revisions| {
        ShowRevision(idx);
        return;
      }
      updatesEnabled := false;
      commitList := [];
      var blob := show(revision);
      commitText := blob;
      updatesEnabled := true;
    }

    /** Show the revision at `idx`, unless it is already the last one shown. */
    method ShowRevision(idx: nat)
      requires Valid() && idx < |revisions|
      modifies this
      ensures Valid() && lastTime == old(lastTime)
      ensures State() == ShowEffect(revisions, summaries, commitDiff, old(State()), idx)
    {
      var summary := summaries[idx];
      var revision := revisions[idx];
      if IsSet(sha1) && sha1.value == revision {
        return;
      }
      commitList := [summary];
      lastCopied := Some(revision);
      var diff := commitDiff(revision);
      sha1 := Some(revision);
      updatesEnabled := false;
      commitText := diff;
      updatesEnabled := true;
    }

    /** The list selection or the text cursor moved. */
    method SelectSummary()
      modifies this
      ensures updatesEnabled == old(updatesEnabled) && lastTime == old(lastTime)
      ensures State() == SelectEffect(old(State()), old(updatesEnabled))
    {
      if !updatesEnabled {
        return;
      }
      if !IsSet(sha1) {
        return;
      }
      revisionLine := sha1.value;
      lastCopied := sha1;
    }
  }
}
