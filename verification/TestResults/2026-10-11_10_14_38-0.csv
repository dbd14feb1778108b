TestResult.DisplayName,TestResult.Outcome,TestResult.Duration,TestResult.ResourceCount,RandomSeed
Socks5.ReadAddrOf (well-formedness),Failed,00:00:00.9146025,2115367,0
