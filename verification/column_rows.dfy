/**
 * The column table checked row by row: each key is camelCase, its value is
 * the key split at its capitals and lower-cased, and no later row repeats
 * the key. Long keys get intermediate positions to check from.
 */
module ColumnRows {
  import opened ColumnTable
  import opened CaseConvert

  lemma Row0() ensures RowChecked(ColumnMappings, 0) {
    var k, v := "createdAt", "created_at";
    assert ColumnMappings[0] == (k, v);
  }

  lemma Row1() ensures RowChecked(ColumnMappings, 1) {
    var k, v := "updatedAt", "updated_at";
    assert ColumnMappings[1] == (k, v);
  }

  lemma Row2() ensures RowChecked(ColumnMappings, 2) {
    var k, v := "verifiedAt", "verified_at";
    assert ColumnMappings[2] == (k, v);
  }

  lemma Row3() ensures RowChecked(ColumnMappings, 3) {
    var k, v := "regionId", "region_id";
    assert ColumnMappings[3] == (k, v);
  }

  lemma Row4() ensures RowChecked(ColumnMappings, 4) {
    var k, v := "categoryId", "category_id";
    assert ColumnMappings[4] == (k, v);
  }

  lemma Row5() ensures RowChecked(ColumnMappings, 5) {
    var k, v := "userId", "user_id";
    assert ColumnMappings[5] == (k, v);
  }

  lemma Row6() ensures RowChecked(ColumnMappings, 6) {
    var k, v := "phenomenonId", "phenomenon_id";
    assert ColumnMappings[6] == (k, v);
  }

  lemma Row7() ensures RowChecked(ColumnMappings, 7) {
    var k, v := "catatanSurveiId", "catatan_survei_id";
    assert ColumnMappings[7] == (k, v);
    assert SplitAtCapitals(k, v, 10, 11) && LettersFrom(k, 10);
    assert SplitAtCapitals(k, v, 5, 5) && LettersFrom(k, 5);
  }

  lemma Row8() ensures RowChecked(ColumnMappings, 8) {
    var k, v := "scrappingBeritaId", "scrapping_berita_id";
    assert ColumnMappings[8] == (k, v);
    assert SplitAtCapitals(k, v, 11, 12) && LettersFrom(k, 11);
    assert SplitAtCapitals(k, v, 5, 5) && LettersFrom(k, 5);
  }

  lemma Row9() ensures RowChecked(ColumnMappings, 9) {
    var k, v := "respondenId", "responden_id";
    assert ColumnMappings[9] == (k, v);
  }

  lemma Row10() ensures RowChecked(ColumnMappings, 10) {
    var k, v := "isVerified", "is_verified";
    assert ColumnMappings[10] == (k, v);
  }

  lemma Row11() ensures RowChecked(ColumnMappings, 11) {
    var k, v := "isActive", "is_active";
    assert ColumnMappings[11] == (k, v);
  }

  lemma Row12() ensures RowChecked(ColumnMappings, 12) {
    var k, v := "regionCode", "region_code";
    assert ColumnMappings[12] == (k, v);
  }

  lemma Row13() ensures RowChecked(ColumnMappings, 13) {
    var k, v := "analysisType", "analysis_type";
    assert ColumnMappings[13] == (k, v);
  }

  lemma Row14() ensures RowChecked(ColumnMappings, 14) {
    var k, v := "nomorResponden", "nomor_responden";
    assert ColumnMappings[14] == (k, v);
    assert SplitAtCapitals(k, v, 7, 8) && LettersFrom(k, 7);
  }

  lemma Row15() ensures RowChecked(ColumnMappings, 15) {
    var k, v := "matchCount", "match_count";
    assert ColumnMappings[15] == (k, v);
  }

  lemma Row16() ensures RowChecked(ColumnMappings, 16) {
    var k, v := "periodeSurvei", "periode_survei";
    assert ColumnMappings[16] == (k, v);
    assert SplitAtCapitals(k, v, 6, 6) && LettersFrom(k, 6);
  }

  lemma Row17() ensures RowChecked(ColumnMappings, 17) {
    var k, v := "startDate", "start_date";
    assert ColumnMappings[17] == (k, v);
  }

  lemma Row18() ensures RowChecked(ColumnMappings, 18) {
    var k, v := "endDate", "end_date";
    assert ColumnMappings[18] == (k, v);
  }

  lemma Row19() ensures RowChecked(ColumnMappings, 19) {
    var k, v := "idBerita", "id_berita";
    assert ColumnMappings[19] == (k, v);
  }

  lemma Row20() ensures RowChecked(ColumnMappings, 20) {
    var k, v := "portalBerita", "portal_berita";
    assert ColumnMappings[20] == (k, v);
  }

  lemma Row21() ensures RowChecked(ColumnMappings, 21) {
    var k, v := "linkBerita", "link_berita";
    assert ColumnMappings[21] == (k, v);
  }

  lemma Row22() ensures RowChecked(ColumnMappings, 22) {
    var k, v := "tanggalBerita", "tanggal_berita";
    assert ColumnMappings[22] == (k, v);
    assert SplitAtCapitals(k, v, 6, 6) && LettersFrom(k, 6);
  }

  lemma Row23() ensures RowChecked(ColumnMappings, 23) {
    var k, v := "tanggalScrap", "tanggal_scrap";
    assert ColumnMappings[23] == (k, v);
  }

  lemma Row24() ensures RowChecked(ColumnMappings, 24) {
    var k, v := "matchedKeywords", "matched_keywords";
    assert ColumnMappings[24] == (k, v);
    assert SplitAtCapitals(k, v, 10, 11) && LettersFrom(k, 10);
    assert SplitAtCapitals(k, v, 5, 5) && LettersFrom(k, 5);
  }

  lemma Row25() ensures RowChecked(ColumnMappings, 25) {
    var k, v := "portalUrl", "portal_url";
    assert ColumnMappings[25] == (k, v);
  }

  lemma Row26() ensures RowChecked(ColumnMappings, 26) {
    var k, v := "maxPages", "max_pages";
    assert ColumnMappings[26] == (k, v);
  }

  lemma Row27() ensures RowChecked(ColumnMappings, 27) {
    var k, v := "delayMs", "delay_ms";
    assert ColumnMappings[27] == (k, v);
  }

  lemma Row28() ensures RowChecked(ColumnMappings, 28) {
    var k, v := "cronSchedule", "cron_schedule";
    assert ColumnMappings[28] == (k, v);
  }

  lemma Row29() ensures RowChecked(ColumnMappings, 29) {
    var k, v := "lastRun", "last_run";
    assert ColumnMappings[29] == (k, v);
  }

  lemma Row30() ensures RowChecked(ColumnMappings, 30) {
    var k, v := "nextRun", "next_run";
    assert ColumnMappings[30] == (k, v);
  }

  /** Every row of the column table passes the check. */
  lemma EveryRowChecked()
    ensures forall i :: 0 <= i < |ColumnMappings| ==> RowChecked(ColumnMappings, i)
  {
    forall i | 0 <= i < |ColumnMappings| ensures RowChecked(ColumnMappings, i) {
      if i == 0 { Row0();
      } else if i == 1 { Row1();
      } else if i == 2 { Row2();
      } else if i == 3 { Row3();
      } else if i == 4 { Row4();
      } else if i == 5 { Row5();
      } else if i == 6 { Row6();
      } else if i == 7 { Row7();
      } else if i == 8 { Row8();
      } else if i == 9 { Row9();
      } else if i == 10 { Row10();
      } else if i == 11 { Row11();
      } else if i == 12 { Row12();
      } else if i == 13 { Row13();
      } else if i == 14 { Row14();
      } else if i == 15 { Row15();
      } else if i == 16 { Row16();
      } else if i == 17 { Row17();
      } else if i == 18 { Row18();
      } else if i == 19 { Row19();
      } else if i == 20 { Row20();
      } else if i == 21 { Row21();
      } else if i == 22 { Row22();
      } else if i == 23 { Row23();
      } else if i == 24 { Row24();
      } else if i == 25 { Row25();
      } else if i == 26 { Row26();
      } else if i == 27 { Row27();
      } else if i == 28 { Row28();
      } else if i == 29 { Row29();
      } else { Row30();
      }
    }
  }
}
