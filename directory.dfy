/**
 * The directory listing `lsDir`: every entry name the directory stream
 * yields whose first character is not '.' is appended, in the order the
 * stream yields them, to a vector the caller owns and does not clear.
 */
module Directory {
  import opened Vectors

  type Name = string

  /**
   * The skip test of the listing. A C entry name that is empty has the
   * terminating NUL as its first character, which is not '.', so an empty
   * name is kept.
   */
  predicate IsHidden(name: Name) {
    |name| > 0 && name[0] == '.'
  }

  /** The names of `entries` that are not hidden, in their original order. */
  function NonHidden(entries: seq<Name>): (kept: seq<Name>)
    ensures |kept| <= |entries|
    ensures forall k | 0 <= k < |kept| :: !IsHidden(kept[k])
  {
    if entries == [] then []
    else if IsHidden(entries[0]) then NonHidden(entries[1..])
    else [entries[0]] + NonHidden(entries[1..])
  }

  /** Filtering a concatenation filters each part. */
  lemma {:induction false} NonHiddenAppend(xs: seq<Name>, ys: seq<Name>)
    ensures NonHidden(xs + ys) == NonHidden(xs) + NonHidden(ys)
  {
    if xs == [] {
      assert xs + ys == ys;
    } else {
      assert (xs + ys)[1..] == xs[1..] + ys;
      NonHiddenAppend(xs[1..], ys);
    }
  }

  /** A name is listed exactly when it is an entry and it is not hidden. */
  lemma {:induction false} NonHiddenMembership(entries: seq<Name>, name: Name)
    ensures name in NonHidden(entries) <==> name in entries && !IsHidden(name)
  {
    if entries != [] {
      NonHiddenMembership(entries[1..], name);
      assert entries == [entries[0]] + entries[1..];
    }
  }

  /** Filtering twice is filtering once. */
  lemma {:induction false} NonHiddenIdempotent(entries: seq<Name>)
    ensures NonHidden(NonHidden(entries)) == NonHidden(entries)
  {
    if entries != [] {
      NonHiddenIdempotent(entries[1..]);
      if !IsHidden(entries[0]) {
        var rest := NonHidden(entries[1..]);
        assert ([entries[0]] + rest)[1..] == rest;
      }
    }
  }

  /** When no entry is hidden, every entry is kept. */
  lemma {:induction false} NonHiddenKeepsAllVisible(entries: seq<Name>)
    requires forall k | 0 <= k < |entries| :: !IsHidden(entries[k])
    ensures NonHidden(entries) == entries
  {
    if entries != [] {
      NonHiddenKeepsAllVisible(entries[1..]);
    }
  }

  /**
   * `lsDir`: reads the stream of entry names `entries` (the successive
   * results of `readdir` until it returns NULL) and appends the ones that
   * are not hidden to `files`. What `files` held before stays as a prefix.
   */
  method LsDir(entries: seq<Name>, files: Vector<Name>)
    modifies files
    ensures files.items == old(files.items) + NonHidden(entries)
  {
    var i := 0;
    while i < |entries|
      invariant 0 <= i <= |entries|
      invariant files.items == old(files.items) + NonHidden(entries[..i])
    {
      var name := entries[i];
      NonHiddenAppend(entries[..i], [name]);
      assert entries[..i + 1] == entries[..i] + [name];
      if !IsHidden(name) {
        files.PushBack(name);
      }
      i := i + 1;
    }
    assert entries[..i] == entries;
  }
}
