/**
 * A snapshot of the store, the name of the file it is saved under, and the choice
 * of the file to load: the candidate whose name carries the largest last-included
 * index. Writing and reading files are left to the caller.
 */
module Snapshots {
  import opened Wrappers
  import opened JavaInts
  import opened Decimal

  datatype Snapshot = Snapshot(
    lastIncludedIndex: int,
    lastIncludedTerm: int,
    data: map<string, string>,
    lastAppliedSequence: map<string, int>,
    timestamp: int)

  const PREFIX: string := "snapshot-"
  const SUFFIX: string := ".dat"

  /** `snapshot-<lastIncludedIndex>-<timestamp>.dat`, both numbers printed as `%d` does. */
  function FileName(lastIncludedIndex: int, timestamp: int): string
  {
    PREFIX + IntToString(lastIncludedIndex) + "-" + IntToString(timestamp) + SUFFIX
  }

  /** The listing keeps the names that start with the prefix and end with the suffix. */
  predicate IsCandidate(name: string)
  {
    |name| >= |PREFIX| && name[..|PREFIX|] == PREFIX && |name| >= |SUFFIX| && name[|name| - |SUFFIX|..] == SUFFIX
  }

  /** `String.replace(pattern, "")`: every occurrence, scanning left to right, removed. */
  function RemoveAll(s: string, pattern: string): (r: string)
    requires |pattern| > 0
    ensures |r| <= |s|
    decreases |s|
  {
    if |s| >= |pattern| && s[..|pattern|] == pattern then RemoveAll(s[|pattern|..], pattern)
    else if s == [] then []
    else [s[0]] + RemoveAll(s[1..], pattern)
  }

  /** The characters up to the first dash. */
  function BeforeDash(s: string): (r: string)
    ensures |r| <= |s| && r == s[..|r|] && '-' !in r
    ensures |r| < |s| ==> s[|r|] == '-'
  {
    if s == [] || s[0] == '-' then [] else [s[0]] + BeforeDash(s[1..])
  }

  predicate AllDashes(s: string) { forall i :: 0 <= i < |s| ==> s[i] == '-' }

  /**
   * The first element of `split("-")`: the whole string when it has no dash, and
   * otherwise the text before the first dash. A non-empty string of dashes only splits
   * into no elements at all, since trailing empty elements are dropped.
   */
  function FirstField(s: string): (r: Option<string>)
    ensures r.None? <==> |s| > 0 && AllDashes(s)
    ensures '-' !in s ==> r == Some(s)
  {
    var before := BeforeDash(s);
    assert '-' !in s ==> |before| == |s| && before == s[..|s|] == s;
    if |s| > 0 && AllDashes(s) then None else Some(before)
  }

  /** The text the name's fields are split from: prefix and suffix removed wherever they occur. */
  function Stripped(name: string): string
  {
    RemoveAll(RemoveAll(name, PREFIX), SUFFIX)
  }

  /** How reading the index out of a name ends, as the source writes it. */
  datatype IndexParse =
    | Parsed(index: int)
    | NotANumber             // NumberFormatException, caught: the file is skipped
    | NoField                // ArrayIndexOutOfBoundsException, not caught: loading fails

  function ParseIndexAsWritten(name: string): (r: IndexParse)
    ensures r.NoField? <==> FirstField(Stripped(name)).None?
  {
    match FirstField(Stripped(name))
    case None => NoField
    case Some(field) =>
      match ParseLong(field)
      case None => NotANumber
      case Some(index) => Parsed(index)
  }

  /**
   * A candidate made of the prefix, two dashes and the suffix strips down to a lone dash,
   * whose split has no first element: reading it escapes the handler that skips
   * unreadable names.
   */
  lemma DashOnlyNameEscapes()
    ensures IsCandidate("snapshot--.dat") && ParseIndexAsWritten("snapshot--.dat") == NoField
  {
    var name := "snapshot--.dat";
    assert name[..|PREFIX|] == PREFIX;
    assert name[|PREFIX|..] == "-.dat";
    assert RemoveAll("-.dat", PREFIX) == "-.dat" by {
      assert RemoveAll(".dat", PREFIX) == ".dat" by {
        assert RemoveAll("dat", PREFIX) == "dat" by {
          assert RemoveAll("at", PREFIX) == "at" by {
            assert RemoveAll("t", PREFIX) == "t";
          }
        }
      }
    }
    assert RemoveAll(".dat", SUFFIX) == [];
    assert RemoveAll("-.dat", SUFFIX) == "-";
    assert Stripped(name) == "-";
  }

  /**
   * The index of a name, skipping it (None) both when its first field is not a number
   * and when it has no first field.
   */
  function ParseIndex(name: string): (r: Option<int>)
    ensures r.Some? <==> ParseIndexAsWritten(name).Parsed?
    ensures r.Some? ==> r.value == ParseIndexAsWritten(name).index && r.value >= 0
  {
    match FirstField(Stripped(name))
    case None => None
    case Some(field) => ParseLong(field)
  }

  /** A name the selection can use: a candidate whose index reads as a number. */
  predicate Loadable(name: string)
  {
    IsCandidate(name) && ParseIndex(name).Some?
  }

  /** Removing a pattern leaves a text alone when no character of it starts the pattern. */
  lemma {:induction false} RemoveAllUntouched(a: string, b: string, pattern: string)
    requires |pattern| > 0 && pattern[0] !in a
    ensures RemoveAll(a + b, pattern) == a + RemoveAll(b, pattern)
    decreases |a|
  {
    if a != [] {
      assert (a + b)[0] == a[0] != pattern[0];
      assert (a + b)[1..] == a[1..] + b;
      RemoveAllUntouched(a[1..], b, pattern);
    } else {
      assert a + b == b;
    }
  }

  /** Digits and dashes only: what `%d` prints. */
  predicate NumberChars(s: string)
  {
    forall i :: 0 <= i < |s| ==> IsDigit(s[i]) || s[i] == '-'
  }

  lemma IntToStringChars(x: int)
    ensures NumberChars(IntToString(x))
  {
    var t := IntToString(x);
    if x < 0 {
      assert forall i :: 1 <= i < |t| ==> t[i] == t[1..][i - 1];
    }
  }

  /** Stripping the name of a saved snapshot leaves the two numbers and the dash between them. */
  lemma StrippedFileName(middle: string)
    requires NumberChars(middle)
    ensures Stripped(PREFIX + middle + SUFFIX) == middle
  {
    var rest := middle + SUFFIX;
    assert PREFIX + middle + SUFFIX == PREFIX + rest;
    assert (PREFIX + rest)[..|PREFIX|] == PREFIX;
    assert (PREFIX + rest)[|PREFIX|..] == rest;
    assert RemoveAll(PREFIX + rest, PREFIX) == RemoveAll(rest, PREFIX);
    assert 's' !in rest by {
      assert forall i :: 0 <= i < |rest| ==> rest[i] == (if i < |middle| then middle[i] else SUFFIX[i - |middle|]);
    }
    assert rest + [] == rest;
    RemoveAllUntouched(rest, [], PREFIX);
    assert '.' !in middle;
    RemoveAllUntouched(middle, SUFFIX, SUFFIX);
    assert RemoveAll(SUFFIX, SUFFIX) == [] by {
      assert SUFFIX[..|SUFFIX|] == SUFFIX && SUFFIX[|SUFFIX|..] == [];
    }
    assert middle + [] == middle;
  }

  /** The name of a saved snapshot is a loadable candidate that reads back its index. */
  lemma FileNameRoundTrip(lastIncludedIndex: int, timestamp: int)
    requires 0 <= lastIncludedIndex && IsLong(lastIncludedIndex)
    ensures IsCandidate(FileName(lastIncludedIndex, timestamp))
    ensures ParseIndex(FileName(lastIncludedIndex, timestamp)) == Some(lastIncludedIndex)
  {
    var digits := IntToString(lastIncludedIndex);
    var stamp := IntToString(timestamp);
    var middle := digits + "-" + stamp;
    assert FileName(lastIncludedIndex, timestamp) == PREFIX + middle + SUFFIX;
    WrappedIsCandidate(middle);
    IntToStringChars(lastIncludedIndex);
    IntToStringChars(timestamp);
    JoinedNumberChars(digits, stamp);
    StrippedFileName(middle);
    FirstFieldOfJoined(digits, stamp);
    ParseLongOfIntToString(lastIncludedIndex);
  }

  /** Any text between the prefix and the suffix makes a candidate name. */
  lemma WrappedIsCandidate(middle: string)
    ensures IsCandidate(PREFIX + middle + SUFFIX)
  {
    var name := PREFIX + middle + SUFFIX;
    assert name[..|PREFIX|] == PREFIX;
    assert name[|name| - |SUFFIX|..] == SUFFIX;
  }

  /** Conversely, a candidate long enough for both is the prefix, some text and the suffix. */
  lemma CandidateIsWrapped(name: string)
    requires IsCandidate(name) && |name| >= |PREFIX| + |SUFFIX|
    ensures name == PREFIX + name[|PREFIX|..|name| - |SUFFIX|] + SUFFIX
  {
    var middle := name[|PREFIX|..|name| - |SUFFIX|];
    assert name == name[..|PREFIX|] + middle + name[|name| - |SUFFIX|..];
  }

  /** Two printed numbers joined by a dash are digits and dashes only. */
  lemma JoinedNumberChars(a: string, b: string)
    requires NumberChars(a) && NumberChars(b)
    ensures NumberChars(a + "-" + b)
  {
    var joined := a + "-" + b;
    forall i | 0 <= i < |joined| ensures IsDigit(joined[i]) || joined[i] == '-' {
      if i < |a| {
        assert joined[i] == a[i];
      } else if i > |a| {
        assert joined[i] == b[i - |a| - 1];
      }
    }
  }

  /** The first field of a dash-free, non-empty text joined to another by a dash is that text. */
  lemma FirstFieldOfJoined(a: string, b: string)
    requires '-' !in a && |a| > 0
    ensures FirstField(a + "-" + b) == Some(a)
  {
    var tail := "-" + b;
    assert a + "-" + b == a + tail;
    BeforeDashOf(a, tail);
    assert (a + tail)[0] == a[0] != '-';
  }

  /** The text before the first dash of a dash-free text followed by a dash is that text. */
  lemma {:induction false} BeforeDashOf(a: string, b: string)
    requires '-' !in a && |b| > 0 && b[0] == '-'
    ensures BeforeDash(a + b) == a
    decreases |a|
  {
    if a == [] {
      assert a + b == b;
    } else {
      assert (a + b)[1..] == a[1..] + b;
      BeforeDashOf(a[1..], b);
    }
  }

  /** The index a listed name offers: that of a loadable candidate, none otherwise. */
  function IndexOf(name: string): (r: Option<int>)
    ensures r.Some? <==> Loadable(name)
    ensures r.Some? ==> r == ParseIndex(name)
  {
    if IsCandidate(name) then ParseIndex(name) else None
  }

  /**
   * The file to load among the listed names: the loadable one with the largest index,
   * the first listed among equals; none when no name is loadable.
   */
  method LatestSnapshotFile(names: seq<string>) returns (latest: Option<string>, ghost position: nat)
    ensures latest.None? <==> forall i :: 0 <= i < |names| ==> IndexOf(names[i]).None?
    ensures latest.Some? ==>
              && position < |names| && names[position] == latest.value && IndexOf(latest.value).Some?
              && (forall i :: 0 <= i < |names| && IndexOf(names[i]).Some? ==> IndexOf(names[i]).value <= IndexOf(latest.value).value)
              && (forall i :: 0 <= i < position && IndexOf(names[i]).Some? ==> IndexOf(names[i]).value < IndexOf(latest.value).value)
  {
    latest, position := LatestBy(names, IndexOf);
  }

  /**
   * The scan over the listing, with the reading of a name's index as `key`: a name
   * replaces the one held only with a strictly larger index, starting below every index.
   */
  method LatestBy(names: seq<string>, key: string -> Option<int>) returns (latest: Option<string>, ghost position: nat)
    requires forall n :: key(n).Some? ==> key(n).value >= 0
    ensures latest.None? <==> forall i :: 0 <= i < |names| ==> key(names[i]).None?
    ensures latest.Some? ==>
              && position < |names| && names[position] == latest.value && key(latest.value).Some?
              && (forall i :: 0 <= i < |names| && key(names[i]).Some? ==> key(names[i]).value <= key(latest.value).value)
              && (forall i :: 0 <= i < position && key(names[i]).Some? ==> key(names[i]).value < key(latest.value).value)
  {
    latest := None;
    position := 0;
    var maxIndex := -1;
    for k := 0 to |names|
      invariant latest.None? <==> forall i :: 0 <= i < k ==> key(names[i]).None?
      invariant latest.None? ==> maxIndex == -1
      invariant latest.Some? ==>
                  && position < k && names[position] == latest.value && key(latest.value) == Some(maxIndex)
                  && (forall i :: 0 <= i < k && key(names[i]).Some? ==> key(names[i]).value <= maxIndex)
                  && (forall i :: 0 <= i < position && key(names[i]).Some? ==> key(names[i]).value < maxIndex)
    {
      var name := names[k];
      var parsed := key(name);
      if parsed.Some? && parsed.value > maxIndex {
        maxIndex := parsed.value;
        latest := Some(name);
        position := k;
      }
    }
  }

  /**
   * The position of the file the loader picks: a loadable name of the largest index,
   * no earlier name having as large an index.
   */
  ghost predicate IsLatest(names: seq<string>, p: int)
  {
    && 0 <= p < |names| && IndexOf(names[p]).Some?
    && (forall i :: 0 <= i < |names| && IndexOf(names[i]).Some? ==> IndexOf(names[i]).value <= IndexOf(names[p]).value)
    && (forall i :: 0 <= i < p && IndexOf(names[i]).Some? ==> IndexOf(names[i]).value < IndexOf(names[p]).value)
  }

  /** At most one position of a listing is the latest, so the loader's choice is determined. */
  lemma LatestIsUnique(names: seq<string>, p: int, q: int)
    requires IsLatest(names, p) && IsLatest(names, q)
    ensures p == q
  {
  }

  /**
   * Loading the latest snapshot: a missing directory (no listing) or no loadable name
   * yields none; otherwise what reading the latest file gives, none when it is unreadable.
   */
  method LoadFromDisk(listing: Option<seq<string>>, read: string -> Option<Snapshot>) returns (snapshot: Option<Snapshot>, ghost position: nat)
    ensures listing.None? ==> snapshot.None?
    ensures listing.Some? && (forall i :: 0 <= i < |listing.value| ==> IndexOf(listing.value[i]).None?) ==> snapshot.None?
    ensures listing.Some? && (exists i :: 0 <= i < |listing.value| && IndexOf(listing.value[i]).Some?) ==>
              IsLatest(listing.value, position) && snapshot == read(listing.value[position])
  {
    position := 0;
    if listing.None? {
      return None, position;
    }
    var latest;
    latest, position := LatestSnapshotFile(listing.value);
    if latest.None? {
      return None, position;
    }
    snapshot := read(latest.value);
  }
}
