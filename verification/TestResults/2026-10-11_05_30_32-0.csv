TestResult.DisplayName,TestResult.Outcome,TestResult.Duration,TestResult.ResourceCount,RandomSeed
Stats.MeanBetweenMinAndMax (correctness),Passed,00:00:00.1353873,27550,3
