/**
 * The two file-naming rules of the backup tool: the name under which a table
 * dump is saved, and the name of the CSV file a dump is converted into.
 * The CSV name is computed with Python's `str.rsplit`, modelled here exactly.
 */
module FileNames {
  import opened Optional

  function Min(a: nat, b: nat): nat { if a <= b then a else b }

  /** Python's `s.endswith(suffix)`. */
  predicate EndsWith(s: string, suffix: string) {
    |suffix| <= |s| && s[|s| - |suffix|..] == suffix
  }

  /** Number of occurrences of `c` in `s`. */
  function Count(s: string, c: char): nat { multiset(s)[c] }

  /** Position of the last occurrence of `c` in `s`, if any. */
  function LastIndex(s: string, c: char): (r: Option<nat>)
    ensures r.None? ==> c !in s
    ensures r.Some? ==> r.value < |s| && s[r.value] == c && c !in s[r.value + 1..]
  {
    if s == [] then None
    else if s[|s| - 1] == c then Some(|s| - 1)
    else
      var r := LastIndex(s[..|s| - 1], c);
      assert s == s[..|s| - 1] + [s[|s| - 1]];
      assert r.Some? ==> s[r.value + 1..] == s[..|s| - 1][r.value + 1..] + [s[|s| - 1]];
      r
  }

  /** The last occurrence is the only one with no further occurrence after it. */
  lemma LastIndexAt(s: string, c: char, j: nat)
    requires j < |s| && s[j] == c && c !in s[j + 1..]
    ensures LastIndex(s, c) == Some(j)
  {
    var r := LastIndex(s, c);
    assert c in s by { assert s[j] == c; }
    var i := r.value;
    forall k | i < k < |s| ensures s[k] != c {
      assert s[k] == s[i + 1..][k - i - 1];
    }
    forall k | j < k < |s| ensures s[k] != c {
      assert s[k] == s[j + 1..][k - j - 1];
    }
  }

  /** Glues pieces back together with `sep` between them (Python's `sep.join`). */
  function Join(parts: seq<string>, sep: char): string
    requires |parts| >= 1
  {
    if |parts| == 1 then parts[0]
    else Join(parts[..|parts| - 1], sep) + [sep] + parts[|parts| - 1]
  }

  /**
   * Python's `s.rsplit(sep, maxsplit)`: `s` is cut at its last `maxsplit`
   * occurrences of `sep` (at all of them when there are fewer).
   */
  function RSplit(s: string, sep: char, maxsplit: nat): (parts: seq<string>)
    ensures 1 <= |parts| <= maxsplit + 1
    ensures forall i :: 1 <= i < |parts| ==> sep !in parts[i]
    decreases maxsplit
  {
    if maxsplit == 0 then [s]
    else match LastIndex(s, sep)
      case None => [s]
      case Some(i) => RSplit(s[..i], sep, maxsplit - 1) + [s[i + 1..]]
  }

  /** Joining the pieces of `rsplit` with the separator gives back the string. */
  lemma {:induction false} RSplitJoin(s: string, sep: char, n: nat)
    ensures Join(RSplit(s, sep, n), sep) == s
    decreases n
  {
    if n > 0 && LastIndex(s, sep).Some? {
      var i := LastIndex(s, sep).value;
      var front := RSplit(s[..i], sep, n - 1);
      var parts := front + [s[i + 1..]];
      assert RSplit(s, sep, n) == parts;
      assert parts[..|parts| - 1] == front;
      RSplitJoin(s[..i], sep, n - 1);
      assert s == s[..i] + [sep] + s[i + 1..];
    }
  }

  /** `rsplit(sep, n)` makes `n` cuts, or one per separator when there are fewer. */
  lemma {:induction false} RSplitLength(s: string, sep: char, n: nat)
    ensures |RSplit(s, sep, n)| == 1 + Min(n, Count(s, sep))
    decreases n
  {
    if n > 0 {
      match LastIndex(s, sep)
      case None =>
        assert Count(s, sep) == 0;
      case Some(i) =>
        RSplitLength(s[..i], sep, n - 1);
        CountSplit(s, sep, i);
    }
  }

  /**
   * `rsplit(sep, n)[0]` is what remains of `s` once its last `m` pieces are
   * dropped, where `m` is `n` or the number of separators, whichever is less:
   * it is a prefix of `s`, the dropped tail holds exactly `m` separators and
   * starts with one, and nothing is dropped when `m` is zero.
   */
  lemma {:induction false} RSplitHead(s: string, sep: char, n: nat)
    ensures var head := RSplit(s, sep, n)[0];
      var m := Min(n, Count(s, sep));
      && head <= s
      && Count(s[|head|..], sep) == m
      && (m == 0 ==> head == s)
      && (m > 0 ==> s[|head|] == sep)
    decreases n
  {
    if n == 0 || LastIndex(s, sep).None? {
      assert RSplit(s, sep, n) == [s];
      assert s[|s|..] == [];
    } else {
      var i := LastIndex(s, sep).value;
      var front := RSplit(s[..i], sep, n - 1);
      var head := front[0];
      assert RSplit(s, sep, n)[0] == head;
      RSplitHead(s[..i], sep, n - 1);
      HeadCut(s, sep, i, head, Min(n - 1, Count(s[..i], sep)));
    }
  }

  /** One step of `RSplitHead`: cutting at the last separator adds one to the tail. */
  lemma HeadCut(s: string, sep: char, i: nat, head: string, m: nat)
    requires i < |s| && s[i] == sep && sep !in s[i + 1..]
    requires head <= s[..i] && Count(s[..i][|head|..], sep) == m
    requires m == 0 ==> head == s[..i]
    requires m > 0 ==> s[..i][|head|] == sep
    ensures head <= s && Count(s[|head|..], sep) == m + 1 && s[|head|] == sep
    ensures Count(s, sep) == Count(s[..i], sep) + 1
  {
    CountSplit(s, sep, i);
    var rest := s[..i][|head|..];
    assert s[|head|..] == rest + [sep] + s[i + 1..];
    CountConcat(rest + [sep], s[i + 1..], sep);
    CountConcat(rest, [sep], sep);
  }

  lemma CountConcat(a: string, b: string, c: char)
    ensures Count(a + b, c) == Count(a, c) + Count(b, c)
  {
    assert multiset(a + b) == multiset(a) + multiset(b);
  }

  lemma CountSplit(s: string, c: char, i: nat)
    requires i < |s| && s[i] == c && c !in s[i + 1..]
    ensures Count(s, c) == Count(s[..i], c) + 1
  {
    assert s == s[..i] + [c] + s[i + 1..];
    CountConcat(s[..i] + [c], s[i + 1..], c);
    CountConcat(s[..i], [c], c);
  }

  /**
   * Name of the CSV file written for a dump file: a `.gz` path loses its
   * last two dot-separated suffixes, any other path its last one, and
   * `.csv` is appended.
   */
  function CsvFileName(xmlfilename: string): (csvfilename: string)
    ensures EndsWith(csvfilename, ".csv")
  {
    if EndsWith(xmlfilename, ".gz") then RSplit(xmlfilename, '.', 2)[0] + ".csv"
    else RSplit(xmlfilename, '.', 1)[0] + ".csv"
  }

  /**
   * The CSV name keeps a prefix of the dump name and drops from it a tail
   * holding the last two dots (for a `.gz` name) or the last dot (for any
   * other), or fewer when the name has fewer dots; a name without a dot
   * is kept whole.
   */
  lemma CsvFileNameDropsSuffixes(xmlfilename: string)
    ensures var csv := CsvFileName(xmlfilename);
      var stem := csv[..|csv| - 4];
      var k := if EndsWith(xmlfilename, ".gz") then 2 else 1;
      && csv == stem + ".csv"
      && stem <= xmlfilename
      && Count(xmlfilename[|stem|..], '.') == Min(k, Count(xmlfilename, '.'))
      && (stem == xmlfilename <==> '.' !in xmlfilename)
      && (stem != xmlfilename ==> xmlfilename[|stem|] == '.')
  {
    var k := if EndsWith(xmlfilename, ".gz") then 2 else 1;
    RSplitHead(xmlfilename, '.', k);
    var csv := CsvFileName(xmlfilename);
    assert csv[..|csv| - 4] == RSplit(xmlfilename, '.', k)[0];
    if '.' in xmlfilename {
      assert Count(xmlfilename, '.') > 0;
    } else {
      assert Count(xmlfilename, '.') == 0;
    }
  }

  /**
   * Name of the file a table is backed up to: the table name, optionally a
   * blank and the download time, and the `.xml.gz` suffix. The time is
   * a parameter: the clock is not part of the model.
   */
  function BackupFileName(table: string, timestamp: bool, now: string): (filename: string)
    ensures EndsWith(filename, ".xml.gz")
    ensures table <= filename
  {
    if timestamp then table + " " + now + ".xml.gz" else table + ".xml.gz"
  }

  /** Cutting at a separator with no separator after it is what `rsplit` does first. */
  lemma RSplitAt(s: string, sep: char, n: nat, i: nat)
    requires n > 0 && i < |s| && s[i] == sep && sep !in s[i + 1..]
    ensures RSplit(s, sep, n) == RSplit(s[..i], sep, n - 1) + [s[i + 1..]]
  {
    LastIndexAt(s, sep, i);
  }

  /** `rsplit` peels a separator-free extension off the end first. */
  lemma RSplitExtension(stem: string, sep: char, ext: string, n: nat)
    requires n > 0 && sep !in ext
    ensures RSplit(stem + [sep] + ext, sep, n) == RSplit(stem, sep, n - 1) + [ext]
  {
    var s := stem + [sep] + ext;
    assert s[..|stem|] == stem && s[|stem|] == sep && s[|stem| + 1..] == ext;
    RSplitAt(s, sep, n, |stem|);
  }

  /** A `.xml.gz` name converts to the same stem with `.csv`. */
  lemma CsvFileNameOfXmlGz(stem: string)
    ensures CsvFileName(stem + ".xml.gz") == stem + ".csv"
  {
    var inner := stem + ['.'] + "xml";
    var name := inner + ['.'] + "gz";
    assert stem + ".xml.gz" == name;
    assert EndsWith(name, ".gz") by { assert name[|name| - 3..] == ".gz"; }
    RSplitExtension(inner, '.', "gz", 2);
    RSplitExtension(stem, '.', "xml", 1);
    assert RSplit(stem, '.', 0) == [stem];
  }

  /** Converting a backup file yields a CSV named after the table (and time). */
  lemma CsvFileNameOfBackup(table: string, timestamp: bool, now: string)
    ensures CsvFileName(BackupFileName(table, timestamp, now))
         == (if timestamp then table + " " + now else table) + ".csv"
  {
    CsvFileNameOfXmlGz(if timestamp then table + " " + now else table);
  }
}
