TestResult.DisplayName,TestResult.Outcome,TestResult.Duration,TestResult.ResourceCount,RandomSeed
IpcClient.AnswerScenario (correctness),Passed,00:00:00.4842612,1038753,1
