/**
 * The per-file conversion: the replacement loop run with the fixed column
 * table, returning the converted content and the number of recorded pairs.
 *
 * Reading and writing the file and the backup copy are outside the model:
 * the content is read before the backup is made, any earlier backup is
 * overwritten, and the converted content is written back even when nothing
 * changed.
 */
module Convert {
  import opened Words
  import opened WholeWord
  import opened CaseConvert
  import opened Mappings
  import opened ColumnTable
  import opened ColumnRows

  /** The column table is well formed: 31 pairs of identifiers, distinct keys, no value that is a key. */
  lemma ColumnMappingsWellFormed()
    ensures |ColumnMappings| == 31
    ensures WellFormed(ColumnMappings)
  {
    EveryRowChecked();
    CheckedTableWellFormed(ColumnMappings);
  }

  /** Every value of the column table is camel_to_snake of its key. */
  lemma ValuesAreCamelToSnake()
    ensures forall j :: 0 <= j < |ColumnMappings| ==> ColumnMappings[j].1 == CamelToSnake(ColumnMappings[j].0)
  {
    EveryRowChecked();
    CheckedTableIsSnakeCase(ColumnMappings);
  }

  /**
   * Converts one file's content. Each whole word that is a key of the table
   * becomes its value and nothing else changes; the recorded pairs are those
   * whose key is a whole word of the input, in table order.
   */
  function ConvertSqlFile(content: string): (r: Conversion)
    ensures r.content == MapWords(content, LookupIn(ColumnMappings))
    ensures r.recorded == Present(ColumnMappings, WordsOf(content))
    ensures r.Count() <= 31
  {
    ColumnMappingsWellFormed();
    ApplyMappingsIsSinglePass(content, ColumnMappings);
    RecordedArePresentKeys(content, ColumnMappings);
    ApplyMappings(content, ColumnMappings)
  }

  /** Outside the words, the converted content is the input. */
  lemma ConvertKeepsSkeleton(content: string)
    ensures Skeleton(ConvertSqlFile(content).content) == Skeleton(content)
    ensures WordsOf(ConvertSqlFile(content).content) == MapAll(LookupIn(ColumnMappings), WordsOf(content))
  {
    ColumnMappingsWellFormed();
    LookupInKeepsIdentifiers(ColumnMappings);
    MapWordsKeepsSkeleton(content, LookupIn(ColumnMappings));
    WordsOfMapWords(content, LookupIn(ColumnMappings));
  }

  /** The count is the number of table keys that occur as whole words, and a pair is recorded exactly then. */
  lemma CountIsKeysPresent(content: string, j: nat)
    requires j < |ColumnMappings|
    ensures ColumnMappings[j] in ConvertSqlFile(content).recorded <==> ColumnMappings[j].0 in WordsOf(content)
  {
    ColumnMappingsWellFormed();
    PresentMembership(ColumnMappings, WordsOf(content), j);
  }

  /** A file in which no key occurs as a whole word is left as it is, with count 0. */
  lemma NoColumnNoChange(content: string)
    requires forall j :: 0 <= j < |ColumnMappings| ==> ColumnMappings[j].0 !in WordsOf(content)
    ensures ConvertSqlFile(content) == Conversion(content, [])
  {
    ColumnMappingsWellFormed();
    NoKeyNoChange(content, ColumnMappings);
  }

  /** Converting converted content changes nothing and counts 0. */
  lemma ConvertIdempotent(content: string)
    ensures var once := ConvertSqlFile(content).content;
      ConvertSqlFile(once) == Conversion(once, [])
  {
    ColumnMappingsWellFormed();
    ApplyMappingsIdempotent(content, ColumnMappings);
  }

  /** An occurrence glued to other word characters is not a whole word and stays. */
  lemma EmbeddedKeyUntouched()
    ensures ReplaceWholeWord("xuserId", "userId", "user_id") == "xuserId"
    ensures ReplaceWholeWord("userIds", "userId", "user_id") == "userIds"
  {
  }
}
