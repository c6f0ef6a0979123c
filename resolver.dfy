/**
 * The resolver (`find`): one lookup of a command name, asking the shell first
 * and searching PATH only when the shell had nothing to say. A 2-bit mask lets
 * the caller ban either lookup. The two lookups are passed in as functions, so
 * that the resolver states only its precedence; which lookups actually ran is
 * recorded in `consulted`, in order.
 */
module Resolver {
  import opened Opt
  import opened ShellReply

  /** `FIND_TYPE`: bit 0 of the mask bans the shell lookup. */
  const BanType: bv32 := 1
  /** `FIND_PATH`: bit 1 of the mask bans the path search. */
  const BanPath: bv32 := 2

  /** `struct match`: what the shell said, or where on PATH the command is. */
  datatype Match = Match(typeMatch: Option<TypeMatch>, pathMatch: Option<string>)

  /** The two lookups `find` can make. */
  datatype Lookup = TypeLookup | PathLookup

  /** The result of `find` (None for NULL) and the lookups it made. */
  datatype Resolution = Resolution(found: Option<Match>, consulted: seq<Lookup>)

  function Find(command: string, bans: bv32,
                findType: string -> Option<TypeMatch>,
                findInPath: string -> Option<string>): (r: Resolution)
    // the shell lookup runs exactly when it is not banned, and always first
    ensures (TypeLookup in r.consulted) <==> bans & BanType == 0
    ensures TypeLookup in r.consulted ==> r.consulted[0] == TypeLookup
    // a shell answer wins: the path search is not made and path_match stays NULL
    ensures bans & BanType == 0 && findType(command).Some? ==>
      r.found == Some(Match(findType(command), None)) && PathLookup !in r.consulted
    // otherwise the path search decides, when it is not banned
    ensures !(bans & BanType == 0 && findType(command).Some?) ==>
      && ((PathLookup in r.consulted) <==> bans & BanPath == 0)
      && r.found == (if bans & BanPath == 0 && findInPath(command).Some?
                     then Some(Match(None, findInPath(command))) else None)
    // a match carries exactly one of the two answers
    ensures r.found.Some? ==> (r.found.value.typeMatch.Some? <==> r.found.value.pathMatch.None?)
    // each lookup runs at most once
    ensures |r.consulted| <= 2 && (|r.consulted| == 2 ==> r.consulted == [TypeLookup, PathLookup])
  {
    var typeAllowed := bans & BanType == 0;
    var typeMatch := if typeAllowed then findType(command) else None;
    if typeMatch.Some? then
      Resolution(Some(Match(typeMatch, None)), [TypeLookup])
    else
      var asked := if typeAllowed then [TypeLookup] else [];
      if bans & BanPath == 0 then
        var pathMatch := findInPath(command);
        if pathMatch.Some? then Resolution(Some(Match(None, pathMatch)), asked + [PathLookup])
        else Resolution(None, asked + [PathLookup])
      else
        Resolution(None, asked)
  }

  /** With both lookups banned nothing is asked and nothing is found. */
  lemma BothBannedFindsNothing(command: string, bans: bv32,
                               findType: string -> Option<TypeMatch>,
                               findInPath: string -> Option<string>)
    requires bans & (BanType | BanPath) == BanType | BanPath
    ensures Find(command, bans, findType, findInPath) == Resolution(None, [])
  {
    assert bans & BanType == BanType && bans & BanPath == BanPath;
  }

  /** Only the two low bits of the mask matter. */
  lemma OnlyLowBitsMatter(command: string, bans: bv32,
                          findType: string -> Option<TypeMatch>,
                          findInPath: string -> Option<string>)
    ensures Find(command, bans, findType, findInPath) ==
            Find(command, bans & (BanType | BanPath), findType, findInPath)
  {
    assert (bans & (BanType | BanPath)) & BanType == bans & BanType;
    assert (bans & (BanType | BanPath)) & BanPath == bans & BanPath;
  }
}
