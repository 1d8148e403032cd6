TestResult.DisplayName,TestResult.Outcome,TestResult.Duration,TestResult.ResourceCount,RandomSeed
Stats.MeanBetweenMinAndMax (correctness),Passed,00:00:00.0870504,27552,7
