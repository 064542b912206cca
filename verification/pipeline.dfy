/** The part of `Main.start()` that belongs to the pipeline: counting the textures of
    the jar before extraction starts, with the extractor's own filter. */
module Pipeline {
  import opened Options
  import opened Strings
  import opened Archives
  import TextureExtractor

  /** The counting loop of `start()` over the jar's entries. `None` stands for a jar
      that could not be opened: the `IOException` is caught and the total stays 0. */
  method CountTextures(jar: Option<Archive>) returns (totalCount: nat)
    ensures jar.None? ==> totalCount == 0
    ensures jar.Some? ==> totalCount == |TextureExtractor.Accepted(jar.value)|
  {
    totalCount := 0;
    if jar.None? {
      return;
    }
    var entries := jar.value;
    var i := 0;
    while i < |entries|
      invariant i <= |entries|
      invariant totalCount == |TextureExtractor.Accepted(entries[..i])|
    {
      var next := entries[i];
      assert entries[..i + 1][..i] == entries[..i];
      if EndsWith(next.name, ".png") && !Contains(next.name, "realms") {
        totalCount := totalCount + 1;
      }
      i := i + 1;
    }
    assert entries[..i] == entries;
  }

  /** A run of the extractor without faults writes as many files as the count
      announced: the progress display's total is reached exactly. */
  lemma TotalMatchesExtraction(start: TextureExtractor.Staging, archive: Archive)
    ensures TextureExtractor.Run(start, archive, None).extractedCount == |TextureExtractor.Accepted(archive)|
  {
  }

  /** The filter on five sample names: "a.png" and "b.png" are taken; "realms/c.png"
      is not, and neither is "gui/surrealms.png", since the test is on the whole
      name; "a.PNG" is not, since the match is case-sensitive. */
  lemma FilterExamples()
    ensures TextureExtractor.Accepts("a.png") && TextureExtractor.Accepts("b.png")
    ensures !TextureExtractor.Accepts("realms/c.png")
    ensures !TextureExtractor.Accepts("gui/surrealms.png")
    ensures !TextureExtractor.Accepts("a.PNG")
  {
    ShorterLacks("a.png", "realms");
    ShorterLacks("b.png", "realms");
    assert OccursAt("gui/surrealms.png", "realms", 7);
    OccurrenceFound("gui/surrealms.png", "realms", 7);
  }
}
