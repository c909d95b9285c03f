TestResult.DisplayName,TestResult.Outcome,TestResult.Duration,TestResult.ResourceCount,RandomSeed
Reviews.ScoreRowAtAccepts (correctness),Failed,00:00:00.4811109,2079129,0
Reviews.ScoreRowLayout (well-formedness),Failed,00:00:00.3165349,138323,0
Reviews.ScoreRowAt (well-formedness),Passed,00:00:00.3046766,573021,0
Reviews.NoScoreRowNoReviews (correctness),Passed,00:00:00.1295058,193188,0
Reviews.NoScoreRowNoReviews (well-formedness),Passed,00:00:00.1028805,166256,0
Reviews.FirstScoreRowIsLeftmost (correctness),Passed,00:00:00.0951933,111957,0
Reviews.NoScoreRowBefore (correctness),Passed,00:00:00.0807066,105740,0
Reviews.NoScoreRowBefore (well-formedness),Passed,00:00:00.0612368,80858,0
Reviews.FirstScoreRow (well-formedness),Passed,00:00:00.0577390,93016,0
Reviews.FirstScoreRowIsLeftmost (well-formedness),Passed,00:00:00.0550903,80483,0
