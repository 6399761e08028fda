/**
 The anime ids the scenarios use. The program does not fix their values; only
 their order, `A < B < C < D < E`, matters to the id-ordered listings. The
 score-ordered protocol adds ids to scores, so there the values 1 to 5 are an
 assumption.
 */
module AnimeIds {
  import opened Common

  const A: AnimeId := 1
  const B: AnimeId := 2
  const C: AnimeId := 3
  const D: AnimeId := 4
  const E: AnimeId := 5
}
