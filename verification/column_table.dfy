/**
 * The fixed table of column renamings and the per-file conversion built on it.
 */
module ColumnTable {
  import opened Chars
  import opened Words
  import opened CaseConvert
  import opened Mappings

  /** The 31 renamings, in the order the dictionary literal lists them. */
  const ColumnMappings: Table := [
    ("createdAt", "created_at"),
    ("updatedAt", "updated_at"),
    ("verifiedAt", "verified_at"),
    ("regionId", "region_id"),
    ("categoryId", "category_id"),
    ("userId", "user_id"),
    ("phenomenonId", "phenomenon_id"),
    ("catatanSurveiId", "catatan_survei_id"),
    ("scrappingBeritaId", "scrapping_berita_id"),
    ("respondenId", "responden_id"),
    ("isVerified", "is_verified"),
    ("isActive", "is_active"),
    ("regionCode", "region_code"),
    ("analysisType", "analysis_type"),
    ("nomorResponden", "nomor_responden"),
    ("matchCount", "match_count"),
    ("periodeSurvei", "periode_survei"),
    ("startDate", "start_date"),
    ("endDate", "end_date"),
    ("idBerita", "id_berita"),
    ("portalBerita", "portal_berita"),
    ("linkBerita", "link_berita"),
    ("tanggalBerita", "tanggal_berita"),
    ("tanggalScrap", "tanggal_scrap"),
    ("matchedKeywords", "matched_keywords"),
    ("portalUrl", "portal_url"),
    ("maxPages", "max_pages"),
    ("delayMs", "delay_ms"),
    ("cronSchedule", "cron_schedule"),
    ("lastRun", "last_run"),
    ("nextRun", "next_run")
  ]

  /** k[i..] consists of letters only; checked index by index. */
  predicate LettersFrom(k: string, i: nat)
    requires i <= |k|
    decreases |k| - i
  {
    i == |k| || ((IsLower(k[i]) || IsUpper(k[i])) && LettersFrom(k, i + 1))
  }

  /** k[i..] holds a capital; checked index by index. */
  predicate CapitalFrom(k: string, i: nat)
    requires i <= |k|
    decreases |k| - i
  {
    i < |k| && (IsUpper(k[i]) || CapitalFrom(k, i + 1))
  }

  /** The shape of one table entry: a camelCase key and its snake_case value. */
  predicate CamelEntry(k: string, v: string) {
    |k| > 0 && LettersFrom(k, 0) && CapitalFrom(k, 0) && SplitAtCapitals(k, v, 0, 0)
  }

  /** Row i has the camelCase shape and its key is not repeated below it. */
  predicate RowChecked(table: Table, i: nat)
    requires i < |table|
  {
    && CamelEntry(table[i].0, table[i].1)
    && forall m :: i < m < |table| ==> table[m].0 != table[i].0
  }

  /** Every character of k[i..] is a letter. */
  lemma {:induction false} LettersAreWordChars(k: string, i: nat)
    requires i <= |k| && LettersFrom(k, i)
    ensures forall m :: i <= m < |k| ==> IsWordChar(k[m])
    decreases |k| - i
  {
    if i < |k| {
      LettersAreWordChars(k, i + 1);
    }
  }

  /** CapitalFrom finds a capital. */
  lemma {:induction false} CapitalFound(k: string, i: nat) returns (u: nat)
    requires i <= |k| && CapitalFrom(k, i)
    ensures i <= u < |k| && IsUpper(k[u])
    decreases |k| - i
  {
    if IsUpper(k[i]) {
      u := i;
    } else {
      u := CapitalFound(k, i + 1);
    }
  }

  /** The value split from letters holds only word characters. */
  lemma {:induction false} SplitIsWordChars(k: string, v: string, i: nat, j: nat)
    requires i <= |k| && j <= |v|
    requires SplitAtCapitals(k, v, i, j) && LettersFrom(k, i)
    ensures forall m :: j <= m < |v| ==> IsWordChar(v[m])
    decreases |k| - i
  {
    if i < |k| {
      if IsUpper(k[i]) {
        SplitIsWordChars(k, v, i + 1, j + 2);
      } else {
        SplitIsWordChars(k, v, i + 1, j + 1);
      }
    }
  }

  /** What the shape of an entry gives: identifiers, a capital in the key, the value as camel_to_snake of the key. */
  lemma CamelEntryFacts(k: string, v: string)
    requires CamelEntry(k, v)
    ensures IsIdentifier(k) && IsIdentifier(v)
    ensures v == CamelToSnake(k)
    ensures exists u :: 0 <= u < |k| && IsUpper(k[u])
  {
    LettersAreWordChars(k, 0);
    SplitIsWordChars(k, v, 0, 0);
    var u := CapitalFound(k, 0);
    CamelToSnakeSplitsAtCapitals(k, v);
  }

  /** A string with a capital is never one without. */
  lemma CapitalSeparates(k: string, v: string, u: nat)
    requires u < |k| && IsUpper(k[u]) && NoUpper(v)
    ensures k != v
  {
    if u < |v| {
      assert !IsUpper(v[u]);
    }
  }

  /** A table whose every row passes the check is well formed. */
  lemma CheckedTableWellFormed(table: Table)
    requires forall i :: 0 <= i < |table| ==> RowChecked(table, i)
    ensures WellFormed(table)
  {
    forall j | 0 <= j < |table| ensures IsIdentifier(table[j].0) && IsIdentifier(table[j].1) {
      assert RowChecked(table, j);
      CamelEntryFacts(table[j].0, table[j].1);
    }
    forall j, m | 0 <= j < |table| && 0 <= m < |table| ensures table[j].1 != table[m].0 {
      assert RowChecked(table, j) && RowChecked(table, m);
      CamelEntryFacts(table[j].0, table[j].1);
      CamelEntryFacts(table[m].0, table[m].1);
      var u :| 0 <= u < |table[m].0| && IsUpper(table[m].0[u]);
      CapitalSeparates(table[m].0, table[j].1, u);
    }
    forall j, m | 0 <= j < m < |table| ensures table[j].0 != table[m].0 {
      assert RowChecked(table, j);
    }
  }

  /** In a table whose every row passes the check, each value is camel_to_snake of its key. */
  lemma CheckedTableIsSnakeCase(table: Table)
    requires forall i :: 0 <= i < |table| ==> RowChecked(table, i)
    ensures forall j :: 0 <= j < |table| ==> table[j].1 == CamelToSnake(table[j].0)
  {
    forall j | 0 <= j < |table| ensures table[j].1 == CamelToSnake(table[j].0) {
      assert RowChecked(table, j);
      CamelEntryFacts(table[j].0, table[j].1);
    }
  }
}
