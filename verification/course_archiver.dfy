/** The naming and listing rules of the course backup archiver: the file name
    `write_course` gives a backup zip, the parser `get_available_backups`
    applies to the archive directory's entries, the name test
    `clean_backup_dir` uses to pick temporary directories, and the guard
    `read_course` puts on the decoded course. Files, zip handling and the PHP
    (un)serializer are not modelled: the directory listing, the clock, the
    unique ids and the encoder/decoder pair are parameters. */
module CourseArchiver {
  import opened Php

  /** Prefix of every temporary directory the archiver creates. */
  const TempDirPrefix: string := "CourseArchiver_"

  /** The class names `read_course` accepts for the decoded object. */
  const CourseClass: string := "Chamilo\\CourseBundle\\Component\\CourseCopy\\Course"
  const CourseClassAlias: string := "Course"

  /** The part of a course object the archiver itself touches. */
  datatype Course = Course(code: string, path: string, backupPath: string, resources: seq<string>)

  /** What `new Course()` yields: a course with nothing in it. */
  const EmptyCourse: Course := Course("", "", "", [])

  /** What `unserialize` produced: an object of some class, or anything else. */
  datatype Decoded = Object(className: string, course: Course) | NotAnObject

  datatype DateTime = DateTime(year: nat, month: nat, day: nat, hour: nat, minute: nat, second: nat) {
    predicate Valid() {
      1 <= month <= 12 && 1 <= day <= 31 && hour < 24 && minute < 60 && second < 60
    }
  }

  /** `DateTime::format('Ymd-His')`. */
  function Stamp(t: DateTime): string {
    ZeroPad(t.year, 4) + ZeroPad(t.month, 2) + ZeroPad(t.day, 2) + "-"
    + ZeroPad(t.hour, 2) + ZeroPad(t.minute, 2) + ZeroPad(t.second, 2)
  }

  /** `DateTime::format('Y-m-d H:i:s')`: the date the listing is meant to show. */
  function DisplayDate(t: DateTime): string {
    ZeroPad(t.year, 4) + "-" + ZeroPad(t.month, 2) + "-" + ZeroPad(t.day, 2) + " "
    + ZeroPad(t.hour, 2) + ":" + ZeroPad(t.minute, 2) + ":" + ZeroPad(t.second, 2)
  }

  /** The name `write_course` gives the zip: `<userId>_<courseCode>_<Ymd-His>.zip`. */
  function ArchiveName(userId: int, courseCode: string, t: DateTime): (name: string)
    ensures StartsWith(name, IntToString(userId) + "_" + courseCode + "_")
    ensures |name| >= 4 && name[|name| - 4..] == ".zip"
  {
    var head := IntToString(userId) + "_" + courseCode + "_";
    var stamp := Stamp(t);
    ZipNameShape(head, stamp);
    head + stamp + ".zip"
  }

  lemma ZipNameShape(head: string, stamp: string)
    ensures StartsWith(head + stamp + ".zip", head)
    ensures (head + stamp + ".zip")[|head + stamp + ".zip"| - 4..] == ".zip"
  {
    PrefixOfAppend(head, stamp + ".zip");
    assert head + stamp + ".zip" == head + (stamp + ".zip");
    SuffixOfAppend(head + stamp, ".zip");
  }

  function TempDirName(uniqueId: string): (name: string)
    ensures StartsWith(name, TempDirPrefix)
  {
    TempDirPrefix + uniqueId
  }

  // ---------------------------------------------------------------------
  // write_course
  // ---------------------------------------------------------------------

  /** The observable outcome of `write_course`: the zip's name (its return
      value), the temporary directory it stages the files in, and the
      contents of `course_info.dat`. */
  datatype Written = Written(zipFile: string, tempDir: string, courseInfo: string)

  function WriteCourse(userId: int, course: Course, now: DateTime, uniqueId: string,
                       encode: Course -> string): (w: Written)
    ensures StartsWith(w.tempDir, TempDirPrefix)
    ensures w.courseInfo == encode(course)
    ensures w.zipFile == ArchiveName(userId, course.code, now)
    ensures |Explode(w.zipFile, '_')| == 3 + Count(course.code, '_')
  {
    var name := ArchiveName(userId, course.code, now);
    ArchiveNameUnderscores(userId, course.code, now);
    Written(name, TempDirName(uniqueId), encode(course))
  }

  // ---------------------------------------------------------------------
  // get_available_backups
  // ---------------------------------------------------------------------

  /** One listed backup: the entry name as read, the rebuilt date and the
      course code. */
  datatype Backup = Backup(file: string, date: string, courseCode: string)

  /** The owner filter is on only for a non-null, non-zero user id: PHP's
      `0 != null` is false. */
  predicate FilterActive(userId: Option<int>) {
    userId.Some? && userId.value != 0
  }

  /** PHP's loose `$owner_id == $user_id` of a string against an integer. */
  predicate OwnerMatches(owner: string, userId: int) {
    IntVal(owner) == userId
  }

  predicate OwnerAccepted(owner: string, userId: Option<int>) {
    (FilterActive(userId) && OwnerMatches(owner, userId.value)) || !FilterActive(userId)
  }

  /** The fixed-offset date rebuild: `Ymd-His` text becomes `Y-m-d H:i:s`,
      skipping the character at index 8. */
  function RebuildDate(d: string): (r: string)
    ensures |d| >= 15 ==> |r| == 19 && r[4] == '-' && r[7] == '-' && r[10] == ' ' && r[13] == ':' && r[16] == ':'
    ensures |d| >= 15 ==> r[..4] == d[..4] && r[17..] == d[13..15]
  {
    Substr(d, 0, 4) + "-" + Substr(d, 4, 2) + "-" + Substr(d, 6, 2) + " "
    + Substr(d, 9, 2) + ":" + Substr(d, 11, 2) + ":" + Substr(d, 13, 2)
  }

  /** The extension: the text between the first and second dot, if any. */
  function Extension(rest: string): Option<string> {
    var pieces := Explode(rest, '.');
    if |pieces| > 1 then Some(pieces[1]) else None
  }

  /** What the listing makes of one directory entry. */
  function ParseEntry(file: string, userId: Option<int>): (r: Option<Backup>)
    ensures r.Some? ==> r.value.file == file && Count(file, '_') == 2 && '_' !in r.value.courseCode
    ensures r.Some? ==> Extension(Explode(file, '_')[2]) == Some("zip")
  {
    var parts := Explode(file, '_');
    if |parts| != 3 then None
    else
      var owner := parts[0];
      var courseCode := parts[1];
      var date := Explode(parts[2], '.')[0];
      if Extension(parts[2]) == Some("zip") && OwnerAccepted(owner, userId) then
        Some(Backup(file, RebuildDate(date), courseCode))
      else None
  }

  /** Reference definition of the listing: the parsed entries, in directory order. */
  function Listed(entries: seq<string>, userId: Option<int>): (r: seq<Backup>)
    ensures |r| <= |entries|
    ensures forall k :: 0 <= k < |r| ==> ParseEntry(r[k].file, userId) == Some(r[k])
  {
    if |entries| == 0 then []
    else
      var head := ParseEntry(entries[0], userId);
      (if head.Some? then [head.value] else []) + Listed(entries[1..], userId)
  }

  lemma {:induction false} ListedSnoc(entries: seq<string>, e: string, userId: Option<int>)
    ensures Listed(entries + [e], userId)
         == Listed(entries, userId) + (var p := ParseEntry(e, userId); if p.Some? then [p.value] else [])
    decreases |entries|
  {
    if |entries| == 0 {
      assert [e][1..] == [];
    } else {
      assert (entries + [e])[1..] == entries[1..] + [e];
      ListedSnoc(entries[1..], e, userId);
    }
  }

  /** `get_available_backups`: reads the directory entries in order and keeps
      the ones that parse. */
  method AvailableBackups(entries: seq<string>, userId: Option<int>) returns (backups: seq<Backup>)
    ensures backups == Listed(entries, userId)
    ensures |backups| <= |entries|
    ensures forall k :: 0 <= k < |backups| ==>
              backups[k].file in entries && ParseEntry(backups[k].file, userId) == Some(backups[k])
  {
    backups := [];
    var i := 0;
    while i < |entries|
      invariant 0 <= i <= |entries|
      invariant backups == Listed(entries[..i], userId)
      invariant |backups| <= i
      invariant forall k :: 0 <= k < |backups| ==>
                  backups[k].file in entries[..i] && ParseEntry(backups[k].file, userId) == Some(backups[k])
    {
      var file := entries[i];
      ListedSnoc(entries[..i], file, userId);
      assert entries[..i + 1] == entries[..i] + [file];
      var parsed := ParseEntry(file, userId);
      if parsed.Some? {
        backups := backups + [parsed.value];
      }
      i := i + 1;
    }
    assert entries[..i] == entries;
  }

  /** A record is listed exactly when some entry parses to it. */
  lemma {:induction false} ListedMembers(entries: seq<string>, userId: Option<int>, b: Backup)
    ensures b in Listed(entries, userId) <==> exists k :: 0 <= k < |entries| && ParseEntry(entries[k], userId) == Some(b)
    decreases |entries|
  {
    if |entries| > 0 {
      ListedMembers(entries[1..], userId, b);
      if exists k :: 0 <= k < |entries| && ParseEntry(entries[k], userId) == Some(b) {
        var k :| 0 <= k < |entries| && ParseEntry(entries[k], userId) == Some(b);
        if k > 0 {
          assert entries[1..][k - 1] == entries[k];
        }
      }
      if exists k :: 0 <= k < |entries[1..]| && ParseEntry(entries[1..][k], userId) == Some(b) {
        var k :| 0 <= k < |entries[1..]| && ParseEntry(entries[1..][k], userId) == Some(b);
        assert entries[k + 1] == entries[1..][k];
      }
    }
  }

  /** The listing keeps directory order: listing two runs of entries is
      listing each run in turn. */
  lemma {:induction false} ListedAppend(a: seq<string>, b: seq<string>, userId: Option<int>)
    ensures Listed(a + b, userId) == Listed(a, userId) + Listed(b, userId)
    decreases |a|
  {
    if |a| == 0 {
      assert a + b == b;
    } else {
      assert (a + b)[1..] == a[1..] + b;
      ListedAppend(a[1..], b, userId);
    }
  }

  // ---------------------------------------------------------------------
  // The writer's names and the lister's parser
  // ---------------------------------------------------------------------

  lemma AllDigitsAppend(a: string, b: string)
    requires AllDigits(a) && AllDigits(b)
    ensures AllDigits(a + b)
  {
    forall i | 0 <= i < |a + b| ensures IsDigit((a + b)[i]) {
      if i >= |a| {
        assert (a + b)[i] == b[i - |a|];
      }
    }
  }

  /** Digits around a dash contain no other character. */
  lemma DigitsDashDigits(a: string, b: string, c: char)
    requires AllDigits(a) && AllDigits(b) && !IsDigit(c) && c != '-'
    ensures c !in a + "-" + b
  {
    var s := a + "-" + b;
    forall i | 0 <= i < |s| ensures s[i] != c {
      if i < |a| {
        assert s[i] == a[i];
      } else if i > |a| {
        assert s[i] == b[i - |a| - 1];
      }
    }
  }

  lemma StampChars(t: DateTime)
    ensures '_' !in Stamp(t) && '.' !in Stamp(t)
  {
    var a := ZeroPad(t.year, 4) + ZeroPad(t.month, 2) + ZeroPad(t.day, 2);
    var b := ZeroPad(t.hour, 2) + ZeroPad(t.minute, 2) + ZeroPad(t.second, 2);
    AllDigitsAppend(ZeroPad(t.year, 4), ZeroPad(t.month, 2));
    AllDigitsAppend(ZeroPad(t.year, 4) + ZeroPad(t.month, 2), ZeroPad(t.day, 2));
    AllDigitsAppend(ZeroPad(t.hour, 2), ZeroPad(t.minute, 2));
    AllDigitsAppend(ZeroPad(t.hour, 2) + ZeroPad(t.minute, 2), ZeroPad(t.second, 2));
    assert Stamp(t) == a + "-" + b;
    DigitsDashDigits(a, b, '_');
    DigitsDashDigits(a, b, '.');
  }

  /** An archive name has two underscores more than its course code. */
  lemma ArchiveNameUnderscores(userId: int, courseCode: string, t: DateTime)
    ensures Count(ArchiveName(userId, courseCode, t), '_') == 2 + Count(courseCode, '_')
  {
    var u := IntToString(userId);
    IntToStringChars(userId, '_');
    StampChars(t);
    JoinedUnderscores(u, courseCode, Stamp(t));
  }

  lemma JoinedUnderscores(u: string, code: string, stamp: string)
    requires '_' !in u && '_' !in stamp
    ensures Count(u + "_" + code + "_" + stamp + ".zip", '_') == 2 + Count(code, '_')
  {
    CountAbsent(u, '_');
    CountAbsent(stamp, '_');
    CountAbsent(".zip", '_');
    CountAppend(u, "_", '_');
    CountAppend(u + "_", code, '_');
    CountAppend(u + "_" + code, "_", '_');
    CountAppend(u + "_" + code + "_", stamp, '_');
    CountAppend(u + "_" + code + "_" + stamp, ".zip", '_');
  }

  /** PHP's `0 != null` is false, so user id 0 lists like no user id at all. */
  lemma ZeroFilterIsNoFilter(file: string)
    ensures ParseEntry(file, Some(0)) == ParseEntry(file, None)
    ensures forall u :: u != 0 ==> (ParseEntry(file, Some(u)).Some? ==> ParseEntry(file, None).Some?)
  {
  }

  /** A course whose code contains an underscore never shows up in the
      listing, whatever the filter. */
  lemma CodeWithUnderscoreNeverListed(userId: int, courseCode: string, t: DateTime, filter: Option<int>)
    requires '_' in courseCode
    ensures ParseEntry(ArchiveName(userId, courseCode, t), filter).None?
  {
    ArchiveNameUnderscores(userId, courseCode, t);
    CountAbsent(courseCode, '_');
  }

  /** A name with exactly two underscores splits into owner, code and rest. */
  lemma SplitThree(owner: string, code: string, rest: string)
    requires '_' !in owner && '_' !in code && '_' !in rest
    ensures Explode(owner + "_" + code + "_" + rest, '_') == [owner, code, rest]
  {
    ExplodeSingle(rest, '_');
    ExplodeCons(code, rest, '_');
    assert owner + "_" + code + "_" + rest == owner + ['_'] + (code + ['_'] + rest);
    ExplodeCons(owner, code + ['_'] + rest, '_');
  }

  /** The date is the text before the first dot and the extension the text
      after it, up to the next dot. */
  lemma DotSegments(date: string, ext: string, tail: string)
    requires '.' !in date && '.' !in ext
    requires tail == "" || tail[0] == '.'
    ensures Explode(date + "." + ext + tail, '.')[0] == date
    ensures Extension(date + "." + ext + tail) == Some(ext)
  {
    var rest := date + "." + ext + tail;
    if tail == "" {
      ExplodeSingle(ext, '.');
      assert rest == date + ['.'] + ext;
      ExplodeCons(date, ext, '.');
    } else {
      var more := tail[1..];
      assert tail == ['.'] + more;
      ExplodeCons(ext, more, '.');
      assert rest == date + ['.'] + (ext + ['.'] + more);
      ExplodeCons(date, ext + ['.'] + more, '.');
    }
  }

  lemma NoUnderscoreJoin(date: string, ext: string, tail: string)
    requires '_' !in date && '_' !in ext && '_' !in tail
    ensures '_' !in date + "." + ext + tail
  {
    var rest := date + "." + ext + tail;
    forall i | 0 <= i < |rest| ensures rest[i] != '_' {
      if i < |date| { assert rest[i] == date[i]; }
      else if i > |date| && i < |date| + 1 + |ext| { assert rest[i] == ext[i - |date| - 1]; }
      else if i >= |date| + 1 + |ext| { assert rest[i] == tail[i - |date| - 1 - |ext|]; }
    }
  }

  /** The parser on a name with exactly two underscores and a dot after the
      date: the extension is the segment after the first dot, up to the next
      dot, and the entry is listed iff that segment is `zip` and the owner
      passes the filter. */
  lemma ParseThreeParts(owner: string, code: string, date: string, ext: string, tail: string,
                        filter: Option<int>)
    requires '_' !in owner && '_' !in code && '_' !in date && '_' !in ext && '_' !in tail
    requires '.' !in date && '.' !in ext
    requires tail == "" || tail[0] == '.'
    ensures var p := ParseEntry(owner + "_" + code + "_" + (date + "." + ext + tail), filter);
            && (p.Some? <==> ext == "zip" && OwnerAccepted(owner, filter))
            && (p.Some? ==> p.value == Backup(owner + "_" + code + "_" + (date + "." + ext + tail),
                                               RebuildDate(date), code))
  {
    NoUnderscoreJoin(date, ext, tail);
    SplitThree(owner, code, date + "." + ext + tail);
    DotSegments(date, ext, tail);
  }

  /** `x.zip.bak` is listed: only the segment after the first dot counts. */
  lemma TrailingSuffixAccepted(owner: string, code: string, date: string, filter: Option<int>)
    requires '_' !in owner && '_' !in code && '_' !in date && '.' !in date
    requires OwnerAccepted(owner, filter)
    ensures ParseEntry(owner + "_" + code + "_" + date + ".zip.bak", filter).Some?
  {
    assert owner + "_" + code + "_" + date + ".zip.bak" == owner + "_" + code + "_" + (date + "." + "zip" + ".bak");
    ParseThreeParts(owner, code, date, "zip", ".bak", filter);
  }

  /** `x.tar.zip` is not listed: its extension is `tar`. */
  lemma DoubleExtensionRejected(owner: string, code: string, date: string, filter: Option<int>)
    requires '_' !in owner && '_' !in code && '_' !in date && '.' !in date
    ensures ParseEntry(owner + "_" + code + "_" + date + ".tar.zip", filter).None?
  {
    assert owner + "_" + code + "_" + date + ".tar.zip" == owner + "_" + code + "_" + (date + "." + "tar" + ".zip");
    ParseThreeParts(owner, code, date, "tar", ".zip", filter);
  }

  /** A third part without a dot has no extension and is never listed. */
  lemma NoDotRejected(owner: string, code: string, date: string, filter: Option<int>)
    requires '_' !in owner && '_' !in code && '_' !in date && '.' !in date
    ensures ParseEntry(owner + "_" + code + "_" + date, filter).None?
  {
    ExplodeSingle(date, '_');
    ExplodeCons(code, date, '_');
    ExplodeCons(owner, code + ['_'] + date, '_');
    assert owner + "_" + code + "_" + date == owner + ['_'] + (code + ['_'] + date);
    ExplodeSingle(date, '.');
  }

  /** The fixed offsets of `get_available_backups` pick the six fields out of
      any text shaped like a `Ymd-His` stamp. */
  lemma RebuildFields(y: string, mo: string, d: string, h: string, mi: string, s: string)
    requires |y| == 4 && |mo| == 2 && |d| == 2 && |h| == 2 && |mi| == 2 && |s| == 2
    ensures RebuildDate(y + mo + d + "-" + h + mi + s)
         == y + "-" + mo + "-" + d + " " + h + ":" + mi + ":" + s
  {
    var p1 := y;
    var p2 := p1 + mo;
    var p3 := p2 + d;
    var p4 := p3 + "-";
    var p5 := p4 + h;
    var p6 := p5 + mi;
    // second
    SubstrAppendRight(p6, s);
    // minute
    SubstrAppendLeft(p6, s, 11, 2);
    SubstrAppendRight(p5, mi);
    // hour
    SubstrAppendLeft(p6, s, 9, 2);
    SubstrAppendLeft(p5, mi, 9, 2);
    SubstrAppendRight(p4, h);
    // day
    SubstrAppendLeft(p6, s, 6, 2);
    SubstrAppendLeft(p5, mi, 6, 2);
    SubstrAppendLeft(p4, h, 6, 2);
    SubstrAppendLeft(p3, "-", 6, 2);
    SubstrAppendRight(p2, d);
    // month
    SubstrAppendLeft(p6, s, 4, 2);
    SubstrAppendLeft(p5, mi, 4, 2);
    SubstrAppendLeft(p4, h, 4, 2);
    SubstrAppendLeft(p3, "-", 4, 2);
    SubstrAppendLeft(p2, d, 4, 2);
    SubstrAppendRight(p1, mo);
    // year
    SubstrAppendLeft(p6, s, 0, 4);
    SubstrAppendLeft(p5, mi, 0, 4);
    SubstrAppendLeft(p4, h, 0, 4);
    SubstrAppendLeft(p3, "-", 0, 4);
    SubstrAppendLeft(p2, d, 0, 4);
    SubstrAppendLeft(p1, mo, 0, 4);
    SubstrAppendRight("", y);
    assert "" + y == y;
  }

  /** A date part too short for the time fields: the substrings past its end
      are empty, so only the separators of the time remain. */
  lemma RebuildDateOnly(y: string, mo: string, d: string)
    requires |y| == 4 && |mo| == 2 && |d| == 2
    ensures RebuildDate(y + mo + d) == y + "-" + mo + "-" + d + " " + ":" + ":"
  {
    var p2 := y + mo;
    SubstrAppendRight(p2, d);
    SubstrAppendLeft(p2, d, 4, 2);
    SubstrAppendRight(y, mo);
    SubstrAppendLeft(p2, d, 0, 4);
    SubstrAppendLeft(y, mo, 0, 4);
    SubstrAppendRight("", y);
    assert "" + y == y;
  }

  /** The fixed offsets invert the `Ymd-His` stamp for four-digit years. */
  lemma RebuildStamp(t: DateTime)
    requires t.Valid() && t.year <= 9999
    ensures RebuildDate(Stamp(t)) == DisplayDate(t)
  {
    DigitsLength(t.year, 4);
    DigitsLength(t.month, 2);
    DigitsLength(t.day, 2);
    DigitsLength(t.hour, 2);
    DigitsLength(t.minute, 2);
    DigitsLength(t.second, 2);
    RebuildFields(ZeroPad(t.year, 4), ZeroPad(t.month, 2), ZeroPad(t.day, 2),
                  ZeroPad(t.hour, 2), ZeroPad(t.minute, 2), ZeroPad(t.second, 2));
  }

  /** Round trip between writer and lister: the name `write_course` gives a
      backup of a course whose code has no underscore is listed, with the
      name as file, the code as course code and the stamp as a readable date,
      exactly when the owner filter is off or names the writing user. */
  lemma WrittenNameIsListed(userId: int, courseCode: string, t: DateTime, filter: Option<int>)
    requires '_' !in courseCode
    requires t.Valid() && t.year <= 9999
    ensures var name := ArchiveName(userId, courseCode, t);
            var p := ParseEntry(name, filter);
            && (p.Some? <==> !FilterActive(filter) || filter.value == userId)
            && (p.Some? ==> p.value == Backup(name, DisplayDate(t), courseCode))
  {
    var u := IntToString(userId);
    IntToStringChars(userId, '_');
    StampChars(t);
    JoinedNameListed(u, courseCode, Stamp(t), filter);
    RebuildStamp(t);
    IntValOfIntToString(userId);
    assert OwnerAccepted(u, filter) <==> !FilterActive(filter) || filter.value == userId;
  }

  lemma JoinedNameListed(u: string, code: string, stamp: string, filter: Option<int>)
    requires '_' !in u && '_' !in code && '_' !in stamp && '.' !in stamp
    ensures var name := u + "_" + code + "_" + stamp + ".zip";
            var p := ParseEntry(name, filter);
            && (p.Some? <==> OwnerAccepted(u, filter))
            && (p.Some? ==> p.value == Backup(name, RebuildDate(stamp), code))
  {
    var rest := stamp + "." + "zip" + "";
    assert rest == stamp + ".zip";
    assert u + "_" + code + "_" + stamp + ".zip" == u + "_" + code + "_" + rest;
    ParseThreeParts(u, code, stamp, "zip", "", filter);
  }

  // ---------------------------------------------------------------------
  // clean_backup_dir
  // ---------------------------------------------------------------------

  datatype DirEntry = DirEntry(name: string, isDir: bool)

  /** The entries `clean_backup_dir` removes. */
  predicate Removable(e: DirEntry) {
    e.name != "." && e.name != ".." && Strpos(e.name, TempDirPrefix) == Some(0) && e.isDir
  }

  /** The names `clean_backup_dir` removes, in directory order. */
  function CleanupTargets(entries: seq<DirEntry>): (removed: seq<string>)
    ensures forall n :: n in removed <==> exists k :: 0 <= k < |entries| && entries[k].name == n && Removable(entries[k])
  {
    if |entries| == 0 then []
    else
      var rest := CleanupTargets(entries[1..]);
      assert forall k :: 0 < k < |entries| ==> entries[k] == entries[1..][k - 1];
      (if Removable(entries[0]) then [entries[0].name] else []) + rest
  }

  /** The `.`/`..` tests are redundant: an entry is removed exactly when it
      is a directory whose name starts with the prefix. */
  lemma RemovableIsPrefixedDirectory(e: DirEntry)
    ensures Removable(e) <==> e.isDir && StartsWith(e.name, TempDirPrefix)
  {
    StrposZeroIsPrefix(e.name, TempDirPrefix);
  }

  /** Every temporary directory `write_course` or `read_course` creates is
      eligible for the next clean-up. */
  lemma TempDirIsRemovable(uniqueId: string)
    ensures Removable(DirEntry(TempDirName(uniqueId), true))
  {
    RemovableIsPrefixedDirectory(DirEntry(TempDirName(uniqueId), true));
  }

  /** A backup zip is never removed by the clean-up: its name starts with the
      user id, not with the prefix. */
  lemma ArchiveIsNotRemovable(userId: int, courseCode: string, t: DateTime, isDir: bool)
    ensures !Removable(DirEntry(ArchiveName(userId, courseCode, t), isDir))
  {
    var name := ArchiveName(userId, courseCode, t);
    RemovableIsPrefixedDirectory(DirEntry(name, isDir));
    assert name[0] == IntToString(userId)[0];
    assert TempDirPrefix[0] == 'C';
    if userId >= 0 {
      assert IsDigit(Digits(userId)[0]);
    }
  }

  // ---------------------------------------------------------------------
  // read_course
  // ---------------------------------------------------------------------

  /** `read_course`: `courseInfo` is the contents of `course_info.dat` in the
      unzipped archive (`None` when the file is missing), `unzipDir` the
      temporary directory the archive was extracted to. */
  function ReadCourse(courseInfo: Option<string>, unzipDir: string, decode: string -> Decoded): (c: Course)
    ensures courseInfo.None? ==> c == EmptyCourse
    ensures courseInfo.Some? ==>
              var d := decode(courseInfo.value);
              if d.Object? && (d.className == CourseClassAlias || d.className == CourseClass)
              then c == d.course.(backupPath := unzipDir)
              else c == EmptyCourse
  {
    if courseInfo.None? then EmptyCourse
    else
      match decode(courseInfo.value)
      case Object(className, course) =>
        if className in [CourseClassAlias, CourseClass] then course.(backupPath := unzipDir)
        else EmptyCourse
      case NotAnObject => EmptyCourse
  }

  /** The unzip directory `read_course` uses under the archive path. */
  function UnzipDir(archivePath: string, uniqueId: string): string {
    archivePath + TempDirName(uniqueId)
  }

  /** Round trip: when the decoder inverts the encoder, reading back what
      `write_course` stored returns the course, now pointing at the unzip
      directory, and that directory is one the clean-up will remove. */
  lemma WriteThenRead(userId: int, course: Course, now: DateTime, writeId: string, readId: string,
                      archivePath: string, encode: Course -> string, decode: string -> Decoded)
    requires decode(encode(course)) == Object(CourseClass, course)
    ensures var w := WriteCourse(userId, course, now, writeId, encode);
            ReadCourse(Some(w.courseInfo), UnzipDir(archivePath, readId), decode)
              == course.(backupPath := archivePath + TempDirName(readId))
    ensures var w := WriteCourse(userId, course, now, writeId, encode);
            var c := ReadCourse(Some(w.courseInfo), UnzipDir(archivePath, readId), decode);
            |archivePath| <= |c.backupPath| && Removable(DirEntry(c.backupPath[|archivePath|..], true))
  {
    SuffixOfAppend(archivePath, TempDirName(readId));
    TempDirIsRemovable(readId);
  }

  /** Round trip between `write_course` and `get_available_backups`: a
      directory holding just the written zip lists one backup record for it
      (file, readable date, course code) exactly when the owner filter is
      off or names the writer, provided the code has no underscore. */
  lemma WriteThenList(userId: int, course: Course, now: DateTime, uniqueId: string,
                      encode: Course -> string, filter: Option<int>)
    requires '_' !in course.code
    requires now.Valid() && now.year <= 9999
    ensures var w := WriteCourse(userId, course, now, uniqueId, encode);
            Listed([w.zipFile], filter)
              == if !FilterActive(filter) || filter.value == userId
                 then [Backup(w.zipFile, DisplayDate(now), course.code)] else []
  {
    var w := WriteCourse(userId, course, now, uniqueId, encode);
    WrittenNameIsListed(userId, course.code, now, filter);
    ListedSingle(w.zipFile, filter);
  }

  lemma ListedSingle(e: string, userId: Option<int>)
    ensures Listed([e], userId) == (var p := ParseEntry(e, userId); if p.Some? then [p.value] else [])
  {
    assert [e][1..] == [];
  }

}
